/** Rendering a compiled brief as a compact agent view, with the byte offsets of every field (compact_agent_view.rs). */
module CompactView {
  import opened Prelude
  import opened Octets
  import opened Ordering
  import opened Counting
  import opened EvidenceEscape
  import opened UnixPaths

  const MAX_ARTIFACT_BYTES: nat := 16 * 1024 * 1024
  const MAX_CITATIONS: nat := 16_384

  type EventId = string

  /** One evidence event: its closed basis and stream codes and its authorized octets. */
  datatype Event = Event(id: EventId, basis: string, stream: string, bytes: string)

  datatype Packet = Packet(ordinal: nat, roles: seq<string>, events: seq<Event>, canonicalIds: seq<EventId>)

  datatype Acquisition = Complete(proof: string) | Partial(reasons: seq<string>) | Unknown(reason: string)

  datatype Coverage = Coverage(shown: nat, pattern: nat, retained: nat,
                               sourceExact: nat, postPolicy: nat, policyOmitted: nat)

  /** The typed brief; `certified` stands for the cost, renderer and status checks made before rendering. */
  datatype Brief = Brief(canonical: string, certified: bool, token: string, acquisition: Acquisition,
                         acknowledged: nat, persisted: nat, packets: seq<Packet>, coverage: Coverage)

  // ---- The text, line by line -----------------------------------------------------------------------------

  function AcquisitionText(a: Acquisition): string {
    match a
    case Complete(proof) => "complete(" + proof + ")"
    case Partial(reasons) => "partial(" + Join(reasons, ',') + ")"
    case Unknown(reason) => "unknown(" + reason + ")"
  }

  function HeaderLines(b: Brief): (ls: seq<string>)
    ensures |ls| == 7
  {
    ["EVIDENTRAIL_AGENT_VIEW_V1",
     "result=" + b.token,
     "untrusted_data=true",
     "acquisition=" + AcquisitionText(b.acquisition),
     "selection=compiled",
     "scope acknowledged=" + Decimal(b.acknowledged) + " persisted=" + Decimal(b.persisted),
     "evidence"]
  }

  function Marker(alias: nat): string {
    "[E" + Decimal(alias) + "]"
  }

  function CitationLine(alias: nat, p: Packet): string {
    Marker(alias) + " roles=" + Join(p.roles, ',')
  }

  function EventPrefix(index: nat, e: Event): string {
    "event" + Decimal(index) + " basis=" + e.basis + " stream=" + e.stream + " data="
  }

  function CoverageLine(c: Coverage): string {
    "coverage shown=" + Decimal(c.shown) + " pattern=" + Decimal(c.pattern) + " retained=" + Decimal(c.retained)
    + " source_exact=" + Decimal(c.sourceExact) + " post_policy=" + Decimal(c.postPolicy)
    + " policy_omitted=" + Decimal(c.policyOmitted)
  }

  // ---- Layout: heads and fields, whatever they say --------------------------------------------------------

  /** One event line: what stands before the data, and the encoded data. */
  datatype Piece = Piece(prefix: string, data: string)

  /** One packet: its citation line and its event lines. */
  datatype Block = Block(head: string, pieces: seq<Piece>)

  /** Byte range of an event line, and of the data in it. */
  datatype Span = Span(fieldStart: nat, fieldEnd: nat, dataStart: nat, dataEnd: nat)

  function PieceText(ps: seq<Piece>): string {
    if ps == [] then "" else ps[0].prefix + ps[0].data + "\n" + PieceText(ps[1..])
  }

  function BlockText(bs: seq<Block>): string {
    if bs == [] then "" else bs[0].head + "\n" + PieceText(bs[0].pieces) + BlockText(bs[1..])
  }

  function SpanAt(p: Piece, offset: nat): Span {
    Span(offset, offset + |p.prefix| + |p.data| + 1, offset + |p.prefix|, offset + |p.prefix| + |p.data|)
  }

  function Spans(ps: seq<Piece>, offset: nat): (spans: seq<Span>)
    ensures |spans| == |ps|
  {
    if ps == [] then []
    else [SpanAt(ps[0], offset)] + Spans(ps[1..], SpanAt(ps[0], offset).fieldEnd)
  }

  /** Where a block starts, and where its fields are. */
  datatype Place = Place(start: nat, spans: seq<Span>)

  function PlaceAt(b: Block, offset: nat): Place {
    Place(offset, Spans(b.pieces, offset + |b.head| + 1))
  }

  function Places(bs: seq<Block>, offset: nat): (places: seq<Place>)
    ensures |places| == |bs|
  {
    if bs == [] then []
    else [PlaceAt(bs[0], offset)] + Places(bs[1..], offset + |bs[0].head| + 1 + |PieceText(bs[0].pieces)|)
  }

  function PieceOf(index: nat, e: Event): Piece {
    Piece(EventPrefix(index, e), Escape(e.bytes))
  }

  function PiecesOf(events: seq<Event>): (ps: seq<Piece>)
    ensures |ps| == |events|
  {
    seq(|events|, i requires 0 <= i < |events| => PieceOf(i + 1, events[i]))
  }

  function BlockOf(alias: nat, p: Packet): Block {
    Block(CitationLine(alias, p), PiecesOf(p.events))
  }

  function BlocksOf(packets: seq<Packet>): (bs: seq<Block>)
    ensures |bs| == |packets|
  {
    seq(|packets|, i requires 0 <= i < |packets| => BlockOf(i + 1, packets[i]))
  }

  // ---- The view -------------------------------------------------------------------------------------------

  /** Lines, each ended by a line feed. */
  function Unlines(lines: seq<string>): string {
    if lines == [] then "" else lines[0] + "\n" + Unlines(lines[1..])
  }

  function HeaderText(b: Brief): string {
    Unlines(HeaderLines(b))
  }

  function FooterText(b: Brief): string {
    CoverageLine(b.coverage) + "\n"
  }

  function Whole(header: string, blocks: seq<Block>, footer: string): string {
    header + BlockText(blocks) + footer
  }

  function ViewText(b: Brief): string {
    Whole(HeaderText(b), BlocksOf(b.packets), FooterText(b))
  }

  function Ids(events: seq<Event>): (ids: seq<EventId>)
    ensures |ids| == |events| && forall i :: 0 <= i < |events| ==> ids[i] == events[i].id
  {
    seq(|events|, i requires 0 <= i < |events| => events[i].id)
  }

  /** What the view records of one event, besides its text. */
  datatype EventProof = EventProof(id: EventId, basis: string, stream: string, byteCount: nat, span: Span)

  datatype PacketAudit = PacketAudit(alias: nat, events: seq<EventProof>)

  /** A citation handle: the alias, what it cites, and the byte range of its marker. */
  datatype Citation = Citation(alias: nat, targets: seq<EventId>, markerStart: nat, markerEnd: nat)

  datatype View = View(text: string, citations: seq<Citation>, audits: seq<PacketAudit>, canonical: string)

  function ProofsOf(events: seq<Event>, spans: seq<Span>): (proofs: seq<EventProof>)
    requires |events| == |spans|
    ensures |proofs| == |events|
  {
    seq(|events|, i requires 0 <= i < |events| =>
      EventProof(events[i].id, events[i].basis, events[i].stream, |events[i].bytes|, spans[i]))
  }

  /** The handle of a citation; it keeps its targets sorted. */
  function CitationOf(alias: nat, p: Packet, start: nat): Citation {
    Citation(alias, Sort(Itself, Ids(p.events)), start, start + |Marker(alias)|)
  }

  /** A view from its text and the places of its blocks. */
  function Assemble(b: Brief, text: string, places: seq<Place>): View
    requires |places| == |b.packets|
    requires forall i :: 0 <= i < |places| ==> |places[i].spans| == |b.packets[i].events|
  {
    View(text,
         seq(|b.packets|, i requires 0 <= i < |b.packets| => CitationOf(i + 1, b.packets[i], places[i].start)),
         seq(|b.packets|, i requires 0 <= i < |b.packets| =>
           PacketAudit(i + 1, ProofsOf(b.packets[i].events, places[i].spans))),
         b.canonical)
  }

  /** The view of a brief: its text, and where everything in it is. */
  function ViewOf(b: Brief): View {
    PlacesFit(BlocksOf(b.packets), |HeaderText(b)|);
    Assemble(b, ViewText(b), Places(BlocksOf(b.packets), |HeaderText(b)|))
  }

  lemma {:induction false} PlacesFit(bs: seq<Block>, offset: nat)
    ensures forall i :: 0 <= i < |bs| ==> |Places(bs, offset)[i].spans| == |bs[i].pieces|
  {
    if bs != [] {
      PlacesFit(bs[1..], offset + |bs[0].head| + 1 + |PieceText(bs[0].pieces)|);
    }
  }

  // ---- Which briefs have a view ---------------------------------------------------------------------------

  /** What one packet must satisfy, given the events shown before it. */
  predicate PacketOk(p: Packet, index: nat, seen: set<EventId>) {
    && p.ordinal == index && p.events != [] && |p.events| <= MAX_CITATIONS
    && Elements(Ids(p.events)) == Elements(p.canonicalIds)
    && Elements(Ids(p.events)) !! seen
    && Distinct(Ids(p.events))
  }

  function Shown(packets: seq<Packet>): set<EventId> {
    if packets == [] then {} else Shown(packets[..|packets| - 1]) + Elements(Ids(packets[|packets| - 1].events))
  }

  ghost predicate FirstPacketsOk(packets: seq<Packet>, n: nat)
    requires n <= |packets|
  {
    forall i :: 0 <= i < n ==> PacketOk(packets[i], i, Shown(packets[..i]))
  }

  ghost predicate PacketsOk(packets: seq<Packet>) {
    FirstPacketsOk(packets, |packets|)
  }

  predicate Preflight(b: Brief) {
    0 < |b.canonical| <= MAX_ARTIFACT_BYTES && b.certified && b.packets != []
  }

  /** Exactly the briefs that have a view. */
  ghost predicate Renderable(b: Brief) {
    && Preflight(b) && PacketsOk(b.packets)
    && IsAscii(ViewText(b)) && |ViewText(b)| < |b.canonical|
  }

  ghost predicate OctetEvents(events: seq<Event>) {
    forall j :: 0 <= j < |events| ==> IsOctets(events[j].bytes)
  }

  // ---- The bounded buffer and the renderer ----------------------------------------------------------------

  datatype ViewError =
    | StructuredInputMismatch | OutputTooLarge | ReversibleEncodingMismatch | NonCanonicalOutput
    | NotSmallerThanCanonical | ReaderFailure

  class BoundedCompactText {
    var value: string
    const maximum: nat

    constructor (maximum: nat)
      ensures value == "" && this.maximum == maximum
    {
      value := "";
      this.maximum := maximum;
    }

    /** Appends all of `s`, or nothing when the bound would be passed. */
    method Push(s: string) returns (ok: bool)
      modifies this`value
      ensures ok == (|old(value)| + |s| <= maximum)
      ensures value == if ok then old(value) + s else old(value)
    {
      if |value| + |s| > maximum { return false; }
      value := value + s;
      return true;
    }
  }

  /** One event line, written in three pushes so that both data offsets are observed, and then decoded again from
      the buffer; only the bound can stop it. */
  method RenderPiece(text: BoundedCompactText, piece: Piece, payload: string) returns (r: Result<Span, ViewError>)
    requires Unescape(piece.data) == Ok(payload)
    modifies text`value
    ensures r.Ok? <==> |old(text.value)| + |piece.prefix| + |piece.data| + 1 <= text.maximum
    ensures r.Err? ==> r.error == OutputTooLarge
    ensures r.Ok? ==> text.value == old(text.value) + piece.prefix + piece.data + "\n"
                      && r.value == SpanAt(piece, |old(text.value)|)
  {
    var fieldStart := |text.value|;
    var ok := text.Push(piece.prefix);
    if !ok { return Err(OutputTooLarge); }
    var dataStart := |text.value|;
    ok := text.Push(piece.data);
    if !ok { return Err(OutputTooLarge); }
    var dataEnd := |text.value|;
    ok := text.Push("\n");
    if !ok { return Err(OutputTooLarge); }
    var encoded := text.value[dataStart..dataEnd];
    assert encoded == piece.data;
    if Unescape(encoded) != Ok(payload) { return Err(ReversibleEncodingMismatch); }
    return Ok(Span(fieldStart, |text.value|, dataStart, dataEnd));
  }

  /** The event lines of one packet. */
  method RenderPieces(text: BoundedCompactText, pieces: seq<Piece>, payloads: seq<string>)
    returns (r: Result<seq<Span>, ViewError>)
    requires |payloads| == |pieces| && forall j :: 0 <= j < |pieces| ==> Unescape(pieces[j].data) == Ok(payloads[j])
    requires |text.value| <= text.maximum
    modifies text`value
    ensures r.Ok? <==> |old(text.value)| + |PieceText(pieces)| <= text.maximum
    ensures r.Err? ==> r.error == OutputTooLarge
    ensures r.Ok? ==> text.value == old(text.value) + PieceText(pieces) && r.value == Spans(pieces, |old(text.value)|)
  {
    var spans: seq<Span> := [];
    ghost var whole, start := text.value + PieceText(pieces), |text.value|;
    assert pieces[0..] == pieces;
    for j := 0 to |pieces|
      invariant whole == text.value + PieceText(pieces[j..]) && |text.value| <= text.maximum
      invariant Spans(pieces, start) == spans + Spans(pieces[j..], |text.value|)
    {
      PiecesAhead(pieces, j, text.value);
      ghost var offset := |text.value|;
      var span := RenderPiece(text, pieces[j], payloads[j]);
      if span.Err? { return Err(span.error); }
      SpansAhead(pieces, j, offset, spans, |text.value|);
      spans := spans + [span.value];
    }
    return Ok(spans);
  }

  lemma PiecesAhead(pieces: seq<Piece>, j: nat, before: string)
    requires j < |pieces|
    ensures before + PieceText(pieces[j..])
         == before + pieces[j].prefix + pieces[j].data + "\n" + PieceText(pieces[j + 1..])
  {
    assert pieces[j..][1..] == pieces[j + 1..];
  }

  lemma SpansAhead(pieces: seq<Piece>, j: nat, offset: nat, spans: seq<Span>, next: nat)
    requires j < |pieces| && next == offset + |pieces[j].prefix| + |pieces[j].data| + 1
    ensures spans + Spans(pieces[j..], offset)
         == (spans + [SpanAt(pieces[j], offset)]) + Spans(pieces[j + 1..], next)
  {
    assert pieces[j..][1..] == pieces[j + 1..];
  }

  lemma BlocksAhead(blocks: seq<Block>, i: nat, before: string)
    requires i < |blocks|
    ensures before + BlockText(blocks[i..])
         == (before + (blocks[i].head + "\n") + PieceText(blocks[i].pieces)) + BlockText(blocks[i + 1..])
  {
    assert blocks[i..][1..] == blocks[i + 1..];
  }

  lemma PlacesAhead(blocks: seq<Block>, i: nat, offset: nat, places: seq<Place>, next: nat)
    requires i < |blocks| && next == offset + |blocks[i].head| + 1 + |PieceText(blocks[i].pieces)|
    ensures places + Places(blocks[i..], offset)
         == (places + [PlaceAt(blocks[i], offset)]) + Places(blocks[i + 1..], next)
  {
    assert blocks[i..][1..] == blocks[i + 1..];
  }

  /** All packets. Stops at the first packet that breaks the structure, or when the bound is passed. */
  method RenderBlocks(text: BoundedCompactText, packets: seq<Packet>, blocks: seq<Block>)
    returns (r: Result<seq<Place>, ViewError>)
    requires |blocks| == |packets| && |text.value| <= text.maximum
    requires forall i :: 0 <= i < |packets| ==> BlockDecodes(packets[i], blocks[i])
    modifies text`value
    ensures r.Ok? <==> PacketsOk(packets) && |old(text.value)| + |BlockText(blocks)| <= text.maximum
    ensures r.Ok? ==> text.value == old(text.value) + BlockText(blocks) && r.value == Places(blocks, |old(text.value)|)
  {
    var places: seq<Place> := [];
    var seen: set<EventId> := {};
    ghost var whole, start := text.value + BlockText(blocks), |text.value|;
    assert blocks[0..] == blocks;
    for i := 0 to |packets|
      invariant seen == Shown(packets[..i])
      invariant FirstPacketsOk(packets, i)
      invariant whole == text.value + BlockText(blocks[i..]) && |text.value| <= text.maximum
      invariant Places(blocks, start) == places + Places(blocks[i..], |text.value|)
    {
      BlocksAhead(blocks, i, text.value);
      ghost var offset := |text.value|;
      var place := RenderBlock(text, packets[i], i, seen, blocks[i]);
      PacketDecides(packets, i);
      if place.Err? { return Err(place.error); }
      PlacesAhead(blocks, i, offset, places, |text.value|);
      seen := seen + Elements(Ids(packets[i].events));
      ShownNext(packets, i);
      places := places + [place.value];
    }
    return Ok(places);
  }

  lemma PacketDecides(packets: seq<Packet>, i: nat)
    requires i < |packets| && FirstPacketsOk(packets, i)
    ensures FirstPacketsOk(packets, i + 1) <==> PacketOk(packets[i], i, Shown(packets[..i]))
    ensures PacketsOk(packets) ==> FirstPacketsOk(packets, i + 1)
  {
  }

  lemma ShownNext(packets: seq<Packet>, i: nat)
    requires i < |packets|
    ensures Shown(packets[..i + 1]) == Shown(packets[..i]) + Elements(Ids(packets[i].events))
  {
    assert packets[..i + 1][..i] == packets[..i];
  }

  ghost predicate BlockDecodes(p: Packet, b: Block) {
    |b.pieces| == |p.events| && forall j :: 0 <= j < |b.pieces| ==> Unescape(b.pieces[j].data) == Ok(p.events[j].bytes)
  }

  /** One packet: ordinal and non-emptiness, the citation line, membership, the event lines, the citation handle. */
  method RenderBlock(text: BoundedCompactText, p: Packet, index: nat, seen: set<EventId>, block: Block)
    returns (r: Result<Place, ViewError>)
    requires BlockDecodes(p, block) && |text.value| <= text.maximum
    modifies text`value
    ensures r.Ok? <==> PacketOk(p, index, seen)
                       && |old(text.value)| + |block.head| + 1 + |PieceText(block.pieces)| <= text.maximum
    ensures r.Ok? ==> |text.value| == |old(text.value)| + |block.head| + 1 + |PieceText(block.pieces)|
    ensures r.Ok? ==> text.value == old(text.value) + (block.head + "\n") + PieceText(block.pieces)
                      && r.value == PlaceAt(block, |old(text.value)|)
  {
    if p.ordinal != index || p.events == [] { return Err(StructuredInputMismatch); }
    var start := |text.value|;
    var ok := text.Push(block.head + "\n");
    if !ok { return Err(OutputTooLarge); }
    if Elements(Ids(p.events)) != Elements(p.canonicalIds) || !(Elements(Ids(p.events)) !! seen) {
      return Err(StructuredInputMismatch);
    }
    var payloads := seq(|p.events|, j requires 0 <= j < |p.events| => p.events[j].bytes);
    var spans := RenderPieces(text, block.pieces, payloads);
    if spans.Err? { return Err(spans.error); }
    if |p.events| > MAX_CITATIONS || !Distinct(Ids(p.events)) { return Err(ReaderFailure); }
    return Ok(Place(start, spans.value));
  }

  lemma BlocksDecode(packets: seq<Packet>)
    requires forall i :: 0 <= i < |packets| ==> OctetEvents(packets[i].events)
    ensures forall i :: 0 <= i < |packets| ==> BlockDecodes(packets[i], BlocksOf(packets)[i])
  {
    forall i | 0 <= i < |packets| ensures BlockDecodes(packets[i], BlocksOf(packets)[i]) {
      var events := packets[i].events;
      forall j | 0 <= j < |events| ensures Unescape(PiecesOf(events)[j].data) == Ok(events[j].bytes) {
        UnescapeEscape(events[j].bytes);
      }
    }
  }

  /** Header, packets and footer into a fresh buffer, then the checks on the whole text. */
  method RenderParts(b: Brief, header: string, blocks: seq<Block>, footer: string) returns (r: Result<View, ViewError>)
    requires |blocks| == |b.packets| && forall i :: 0 <= i < |blocks| ==> BlockDecodes(b.packets[i], blocks[i])
    requires |b.canonical| <= MAX_ARTIFACT_BYTES
    requires forall i :: 0 <= i < |blocks| ==> |Places(blocks, |header|)[i].spans| == |b.packets[i].events|
    ensures r.Ok? <==> PacketsOk(b.packets) && IsAscii(Whole(header, blocks, footer))
                       && |Whole(header, blocks, footer)| < |b.canonical|
    ensures r.Ok? ==> r.value == Assemble(b, Whole(header, blocks, footer), Places(blocks, |header|))
  {
    var text := new BoundedCompactText(MAX_ARTIFACT_BYTES);
    var ok := text.Push(header);
    if !ok { return Err(OutputTooLarge); }
    assert text.value == header;
    var places := RenderBlocks(text, b.packets, blocks);
    if places.Err? { return Err(places.error); }
    ok := text.Push(footer);
    if !ok { return Err(OutputTooLarge); }
    if !IsAscii(text.value) { return Err(NonCanonicalOutput); }
    if |text.value| >= |b.canonical| { return Err(NotSmallerThanCanonical); }
    return Ok(Assemble(b, text.value, places.value));
  }

  // ---- Renderable briefs, field by field ------------------------------------------------------------------

  ghost predicate ShowsEvent(p: Packet, id: EventId) {
    exists e :: e in p.events && e.id == id
  }

  /** Numbered from zero, each packet with one to 16,384 events, none twice, exactly its canonical ones, in no other. */
  ghost predicate PacketsSound(packets: seq<Packet>) {
    && (forall i :: 0 <= i < |packets| ==> packets[i].ordinal == i && 1 <= |packets[i].events| <= 16_384)
    && (forall i, j, k :: 0 <= i < |packets| && 0 <= j < k < |packets[i].events| ==>
          packets[i].events[j].id != packets[i].events[k].id)
    && (forall i, id :: 0 <= i < |packets| ==> (id in packets[i].canonicalIds <==> ShowsEvent(packets[i], id)))
    && forall i, k, id :: 0 <= i < k < |packets| && ShowsEvent(packets[i], id) ==> !ShowsEvent(packets[k], id)
  }

  lemma ShowsExactly(p: Packet, id: EventId)
    ensures id in Elements(Ids(p.events)) <==> ShowsEvent(p, id)
  {
    if ShowsEvent(p, id) {
      var e :| e in p.events && e.id == id;
      var j :| 0 <= j < |p.events| && p.events[j] == e;
      assert Ids(p.events)[j] == id;
    }
  }

  lemma {:induction false} ShownExactly(packets: seq<Packet>, id: EventId)
    ensures id in Shown(packets) <==> exists k :: 0 <= k < |packets| && ShowsEvent(packets[k], id)
    decreases |packets|
  {
    if packets != [] {
      var last := |packets| - 1;
      ShownExactly(packets[..last], id);
      ShowsExactly(packets[last], id);
    }
  }

  /** One packet's own conditions, and that it shows nothing shown before. */
  ghost predicate PacketSound(packets: seq<Packet>, i: nat)
    requires i < |packets|
  {
    && packets[i].ordinal == i && 1 <= |packets[i].events| <= 16_384 && Distinct(Ids(packets[i].events))
    && (forall id :: id in packets[i].canonicalIds <==> ShowsEvent(packets[i], id))
    && forall k, id :: 0 <= k < i && ShowsEvent(packets[k], id) ==> !ShowsEvent(packets[i], id)
  }

  lemma PacketExactly(packets: seq<Packet>, i: nat)
    requires i < |packets|
    ensures PacketOk(packets[i], i, Shown(packets[..i])) <==> PacketSound(packets, i)
  {
    var p, seen := packets[i], Shown(packets[..i]);
    forall id
      ensures id in Elements(Ids(p.events)) <==> ShowsEvent(p, id)
      ensures id in seen <==> exists k :: 0 <= k < i && ShowsEvent(packets[k], id)
    {
      ShowsExactly(p, id);
      ShownExactly(packets[..i], id);
    }
    CanonicalExactly(p);
  }

  lemma CanonicalExactly(p: Packet)
    ensures Elements(Ids(p.events)) == Elements(p.canonicalIds)
       <==> forall id :: id in p.canonicalIds <==> ShowsEvent(p, id)
  {
    forall id ensures id in Elements(Ids(p.events)) <==> ShowsEvent(p, id) { ShowsExactly(p, id); }
    if Elements(Ids(p.events)) == Elements(p.canonicalIds) {
      forall id ensures id in p.canonicalIds <==> ShowsEvent(p, id) {
        assert id in Elements(p.canonicalIds) <==> id in Elements(Ids(p.events));
      }
    }
  }

  lemma PacketsExactly(packets: seq<Packet>)
    ensures PacketsOk(packets) <==> PacketsSound(packets)
  {
    forall i | 0 <= i < |packets|
      ensures PacketOk(packets[i], i, Shown(packets[..i])) <==> PacketSound(packets, i)
    {
      PacketExactly(packets, i);
    }
    EachSound(packets);
  }

  lemma EachSound(packets: seq<Packet>)
    ensures (forall i :: 0 <= i < |packets| ==> PacketSound(packets, i)) <==> PacketsSound(packets)
  {
    if forall i :: 0 <= i < |packets| ==> PacketSound(packets, i) {
      forall i, j, k | 0 <= i < |packets| && 0 <= j < k < |packets[i].events|
        ensures packets[i].events[j].id != packets[i].events[k].id
      {
        assert PacketSound(packets, i);
        assert Ids(packets[i].events)[j] != Ids(packets[i].events)[k];
      }
      forall i, id | 0 <= i < |packets| ensures id in packets[i].canonicalIds <==> ShowsEvent(packets[i], id) {
        assert PacketSound(packets, i);
      }
      forall i, k, id | 0 <= i < k < |packets| && ShowsEvent(packets[i], id) ensures !ShowsEvent(packets[k], id) {
        assert PacketSound(packets, k);
      }
      forall i | 0 <= i < |packets| ensures packets[i].ordinal == i && 1 <= |packets[i].events| <= 16_384 {
        assert PacketSound(packets, i);
      }
    }
    if PacketsSound(packets) {
      forall i | 0 <= i < |packets| ensures PacketSound(packets, i) { SoundAt(packets, i); }
    }
  }

  lemma SoundAt(packets: seq<Packet>, i: nat)
    requires PacketsSound(packets) && i < |packets|
    ensures PacketSound(packets, i)
  {
    var ids := Ids(packets[i].events);
    forall j, k | 0 <= j < k < |ids| ensures ids[j] != ids[k] {
      assert packets[i].events[j].id != packets[i].events[k].id;
    }
  }

  /** The briefs that have a view: certified and of a canonical size, with sound packets, and a shorter ASCII text. */
  lemma RenderableExactly(b: Brief)
    ensures Renderable(b)
       <==> && 0 < |b.canonical| <= 16_777_216 && b.certified && |b.packets| > 0 && PacketsSound(b.packets)
            && (forall i :: 0 <= i < |ViewText(b)| ==> ViewText(b)[i] as int < 128) && |ViewText(b)| < |b.canonical|
  {
    PacketsExactly(b.packets);
  }

  /** `freeze_compact_compiled_agent_view_v1`: accepts exactly the renderable briefs and returns their view.
      Consecutive pushes between which nothing is observed are written as one. */
  method Render(b: Brief) returns (r: Result<View, ViewError>)
    requires forall i :: 0 <= i < |b.packets| ==> OctetEvents(b.packets[i].events)
    ensures r.Ok? <==> Renderable(b)
    ensures r.Ok? ==> r.value == ViewOf(b)
  {
    if !Preflight(b) { return Err(StructuredInputMismatch); }
    BlocksDecode(b.packets);
    PlacesFit(BlocksOf(b.packets), |HeaderText(b)|);
    r := RenderParts(b, HeaderText(b), BlocksOf(b.packets), FooterText(b));
  }
}
