/** Reading a compact view back: the citation lines, and through them every packet and every octet. */
module ViewReader {
  import opened Prelude
  import opened Octets
  import opened EvidenceEscape
  import opened UnixPaths
  import opened CompactView
  import opened ViewFrame

  // ---- A line reader --------------------------------------------------------------------------------------

  datatype ReadEvent = ReadEvent(basis: string, stream: string, bytes: string)

  datatype ReadPacket = ReadPacket(alias: nat, roles: seq<string>, events: seq<ReadEvent>)

  function ReadEventLine(line: string): Option<ReadEvent> {
    var numbered := ReadNumbered(line, "event");
    if numbered.None? then None else
    var basis := ReadUntil(numbered.value.1, " basis=", ' ');
    if basis.None? then None else
    var stream := ReadUntil(basis.value.1, " stream=", ' ');
    if stream.None? then None else
    var data := Strip(stream.value.1, " data=");
    if data.None? then None else
    var bytes := Unescape(data.value);
    if bytes.Err? then None else Some(ReadEvent(basis.value.0, stream.value.0, bytes.value))
  }

  function ReadCitationLine(line: string): Option<(nat, seq<string>)> {
    var numbered := ReadNumbered(line, "[E");
    if numbered.None? then None else
    var roles := Strip(numbered.value.1, "] roles=");
    if roles.None? then None
    else Some((numbered.value.0, if roles.value == "" then [] else Split(roles.value, ',')))
  }

  /** Packets from the lines after the header; events are collected for the citation line above them. */
  function ReadBody(lines: seq<string>): Option<(seq<ReadEvent>, seq<ReadPacket>)> {
    if lines == [] then None
    else if "coverage" <= lines[0] then Some(([], []))
    else
      var rest := ReadBody(lines[1..]);
      if rest.None? then None
      else if "[E" <= lines[0] then
        var cited := ReadCitationLine(lines[0]);
        if cited.None? then None
        else Some(([], [ReadPacket(cited.value.0, cited.value.1, rest.value.0)] + rest.value.1))
      else
        var event := ReadEventLine(lines[0]);
        if event.None? then None else Some(([event.value] + rest.value.0, rest.value.1))
  }

  /** Seven header lines, the evidence, the coverage line and the end of the text. */
  function ReadView(text: string): Option<(Frame, seq<ReadPacket>)> {
    var lines := Split(text, '\n');
    var n := |lines|;
    if n < 9 || lines[n - 1] != "" then None else
    var frame := ReadFrame(lines[..7], lines[n - 2]);
    var body := ReadBody(lines[7..]);
    if frame.None? || body.None? || body.value.0 != [] then None else Some((frame.value, body.value.1))
  }

  /** Lines that open a citation. */
  function CitationLines(lines: seq<string>): seq<string> {
    if lines == [] then []
    else (if "[E" <= lines[0] then [lines[0]] else []) + CitationLines(lines[1..])
  }

  // ---- What a view is expected to say ---------------------------------------------------------------------

  function Said(events: seq<Event>): (said: seq<ReadEvent>)
    ensures |said| == |events|
  {
    seq(|events|, i requires 0 <= i < |events| => ReadEvent(events[i].basis, events[i].stream, events[i].bytes))
  }

  function SaidPackets(packets: seq<Packet>, alias: nat): seq<ReadPacket> {
    if packets == [] then []
    else [ReadPacket(alias, packets[0].roles, Said(packets[0].events))] + SaidPackets(packets[1..], alias + 1)
  }

  ghost predicate LegibleEvent(e: Event) {
    IsCode(e.basis) && IsCode(e.stream) && IsOctets(e.bytes)
  }

  ghost predicate LegiblePacket(p: Packet) {
    && (forall i :: 0 <= i < |p.roles| ==> IsCode(p.roles[i]))
    && forall j :: 0 <= j < |p.events| ==> LegibleEvent(p.events[j])
  }

  /** The closed codes are codes, the result token is one line, and evidence is octets. Nothing is asked of the
      octets. */
  ghost predicate Legible(b: Brief) {
    && '\n' !in b.token
    && LegibleAcquisition(b.acquisition)
    && forall i :: 0 <= i < |b.packets| ==> LegiblePacket(b.packets[i])
  }

  // ---- Single lines read back -----------------------------------------------------------------------------

  lemma EventLineGroups(n: string, basis: string, stream: string, data: string)
    ensures "event" + n + " basis=" + basis + " stream=" + stream + " data=" + data
         == "event" + (n + (" basis=" + (basis + (" stream=" + (stream + (" data=" + data))))))
  {
  }

  lemma EventLineReadsBack(index: nat, e: Event)
    requires LegibleEvent(e)
    ensures ReadEventLine(EventPrefix(index, e) + Escape(e.bytes)) == Some(ReadEvent(e.basis, e.stream, e.bytes))
  {
    var data := " data=" + Escape(e.bytes);
    var stream := " stream=" + (e.stream + data);
    var basis := " basis=" + (e.basis + stream);
    EventLineGroups(Decimal(index), e.basis, e.stream, Escape(e.bytes));
    ReadNumberedBack("event", index, basis);
    ReadUntilBack(" basis=", e.basis, ' ', stream);
    ReadUntilBack(" stream=", e.stream, ' ', data);
    StripBack(" data=", Escape(e.bytes));
    UnescapeEscape(e.bytes);
  }

  lemma CitationLineReadsBack(alias: nat, p: Packet)
    requires LegiblePacket(p)
    ensures ReadCitationLine(CitationLine(alias, p)) == Some((alias, p.roles))
  {
    var roles := Join(p.roles, ',');
    assert CitationLine(alias, p) == "[E" + (Decimal(alias) + ("] roles=" + roles));
    ReadNumberedBack("[E", alias, "] roles=" + roles);
    StripBack("] roles=", roles);
    if p.roles != [] {
      assert IsCode(p.roles[0]);
      SplitJoin(p.roles, ',');
    }
  }

  // ---- The view as lines ----------------------------------------------------------------------------------

  function PieceLines(ps: seq<Piece>): seq<string> {
    if ps == [] then [] else [ps[0].prefix + ps[0].data] + PieceLines(ps[1..])
  }

  function BlockLines(bs: seq<Block>): seq<string> {
    if bs == [] then [] else [bs[0].head] + (PieceLines(bs[0].pieces) + BlockLines(bs[1..]))
  }

  lemma {:induction false} UnlinesAppend(a: seq<string>, b: seq<string>)
    ensures Unlines(a + b) == Unlines(a) + Unlines(b)
  {
    if a == [] {
      assert a + b == b;
    } else {
      assert (a + b)[1..] == a[1..] + b;
      UnlinesAppend(a[1..], b);
      Regroup(a[0] + "\n", Unlines(a[1..]), Unlines(b));
    }
  }

  lemma {:induction false} PieceTextIsLines(ps: seq<Piece>)
    ensures PieceText(ps) == Unlines(PieceLines(ps))
  {
    if ps != [] {
      PieceTextIsLines(ps[1..]);
      assert PieceLines(ps)[1..] == PieceLines(ps[1..]);
    }
  }

  lemma {:induction false} BlockTextIsLines(bs: seq<Block>)
    ensures BlockText(bs) == Unlines(BlockLines(bs))
  {
    if bs != [] {
      var pieces, later := PieceLines(bs[0].pieces), BlockLines(bs[1..]);
      PieceTextIsLines(bs[0].pieces);
      BlockTextIsLines(bs[1..]);
      UnlinesAppend(pieces, later);
      assert BlockLines(bs)[1..] == pieces + later;
      Regroup(bs[0].head + "\n", Unlines(pieces), Unlines(later));
    }
  }

  function ViewLines(b: Brief): seq<string> {
    HeaderLines(b) + (BlockLines(BlocksOf(b.packets)) + [CoverageLine(b.coverage)])
  }

  lemma ViewTextIsLines(b: Brief)
    ensures ViewText(b) == Unlines(ViewLines(b))
  {
    var body, footer := BlockLines(BlocksOf(b.packets)), CoverageLine(b.coverage);
    BlockTextIsLines(BlocksOf(b.packets));
    UnlinesAppend(body, [footer]);
    UnlinesAppend(HeaderLines(b), body + [footer]);
    assert Unlines([footer]) == footer + "\n" by { assert [footer][1..] == []; }
    Regroup(HeaderText(b), Unlines(body), footer + "\n");
  }

  ghost predicate OneLiners(lines: seq<string>) {
    forall i :: 0 <= i < |lines| ==> '\n' !in lines[i]
  }

  lemma {:induction false} SplitUnlines(lines: seq<string>)
    requires OneLiners(lines)
    ensures Split(Unlines(lines), '\n') == lines + [""]
  {
    if lines != [] {
      SplitAfterPiece(lines[0], Unlines(lines[1..]), '\n');
      SplitUnlines(lines[1..]);
    }
  }

  lemma {:induction false} DecimalIsOneLine(n: nat)
    ensures '\n' !in Decimal(n)
  {
    forall i | 0 <= i < |Decimal(n)| ensures Decimal(n)[i] != '\n' { assert IsDigit(Decimal(n)[i]); }
  }

  lemma {:induction false} JoinIsOneLine(parts: seq<string>)
    requires OneLiners(parts)
    ensures '\n' !in Join(parts, ',')
  {
    if |parts| > 1 { JoinIsOneLine(parts[1..]); }
  }

  lemma EventIsOneLine(index: nat, e: Event)
    requires LegibleEvent(e)
    ensures '\n' !in EventPrefix(index, e) + Escape(e.bytes)
  {
    DecimalIsOneLine(index);
    EscapeIsPrintable(e.bytes);
    assert !IsPrintable('\n');
  }

  lemma CitationIsOneLine(alias: nat, p: Packet)
    requires LegiblePacket(p)
    ensures '\n' !in CitationLine(alias, p)
  {
    DecimalIsOneLine(alias);
    forall i | 0 <= i < |p.roles| ensures '\n' !in p.roles[i] { assert IsCode(p.roles[i]); }
    JoinIsOneLine(p.roles);
  }

  lemma HeaderIsOneLiners(b: Brief)
    requires Legible(b)
    ensures OneLiners(HeaderLines(b)) && '\n' !in CoverageLine(b.coverage)
    ensures forall i :: 0 <= i < 7 ==> !("[E" <= HeaderLines(b)[i])
    ensures "coverage" <= CoverageLine(b.coverage) && !("[E" <= CoverageLine(b.coverage))
  {
    HeaderHasNoLf(b);
    HeaderOpensNothing(b);
    CoverageIsOneLine(b.coverage);
    assert CoverageLine(b.coverage)[0] == 'c';
  }

  lemma HeaderHasNoLf(b: Brief)
    requires Legible(b)
    ensures OneLiners(HeaderLines(b))
  {
    AcquisitionIsOneLine(b);
    LineAfter("acquisition=", AcquisitionText(b.acquisition));
    LineAfter("result=", b.token);
    ScopeIsOneLine(b.acknowledged, b.persisted);
    var h := HeaderLines(b);
    forall i | 0 <= i < |h| ensures '\n' !in h[i] {
      assert i == 0 || i == 1 || i == 2 || i == 3 || i == 4 || i == 5 || i == 6;
    }
  }

  lemma LineAfter(name: string, value: string)
    requires '\n' !in name && '\n' !in value
    ensures '\n' !in name + value
  {
  }

  lemma ScopeIsOneLine(acknowledged: nat, persisted: nat)
    ensures '\n' !in "scope acknowledged=" + Decimal(acknowledged) + " persisted=" + Decimal(persisted)
  {
    DecimalIsOneLine(acknowledged);
    DecimalIsOneLine(persisted);
  }

  lemma HeaderOpensNothing(b: Brief)
    ensures forall i :: 0 <= i < 7 ==> !("[E" <= HeaderLines(b)[i])
  {
    var h := HeaderLines(b);
    assert h[0][0] == 'E' && h[1][0] == 'r' && h[2][0] == 'u' && h[3][0] == 'a' && h[4][0] == 's' && h[5][0] == 's'
        && h[6][0] == 'e';
  }

  lemma AcquisitionIsOneLine(b: Brief)
    requires Legible(b)
    ensures '\n' !in AcquisitionText(b.acquisition)
  {
    if b.acquisition.Partial? {
      forall i | 0 <= i < |b.acquisition.reasons| ensures '\n' !in b.acquisition.reasons[i] {
        assert IsCode(b.acquisition.reasons[i]);
      }
      JoinIsOneLine(b.acquisition.reasons);
    }
  }

  lemma CoverageIsOneLine(c: Coverage)
    ensures '\n' !in CoverageLine(c) && "coverage" <= CoverageLine(c)
  {
    DecimalIsOneLine(c.shown);
    DecimalIsOneLine(c.pattern);
    DecimalIsOneLine(c.retained);
    DecimalIsOneLine(c.sourceExact);
    DecimalIsOneLine(c.postPolicy);
    DecimalIsOneLine(c.policyOmitted);
  }

  // ---- The body reads back --------------------------------------------------------------------------------

  /** The line of `p` reads as `r`. */
  ghost predicate PieceSays(p: Piece, r: ReadEvent) {
    var line := p.prefix + p.data;
    ReadEventLine(line) == Some(r) && line != [] && line[0] == 'e' && '\n' !in line
  }

  ghost predicate PiecesSay(ps: seq<Piece>, said: seq<ReadEvent>) {
    |ps| == |said| && forall j :: 0 <= j < |ps| ==> PieceSays(ps[j], said[j])
  }

  lemma PiecesSayEvents(events: seq<Event>)
    requires forall k :: 0 <= k < |events| ==> LegibleEvent(events[k])
    ensures PiecesSay(PiecesOf(events), Said(events))
  {
    forall j | 0 <= j < |events| ensures PieceSays(PiecesOf(events)[j], Said(events)[j]) {
      EventLineReadsBack(j + 1, events[j]);
      EventIsOneLine(j + 1, events[j]);
    }
  }

  lemma ReadBodyEvent(p: Piece, event: ReadEvent, rest: seq<string>)
    requires ReadBody(rest).Some? && PieceSays(p, event)
    ensures ReadBody([p.prefix + p.data] + rest) == Some(([event] + ReadBody(rest).value.0, ReadBody(rest).value.1))
  {
    assert ([p.prefix + p.data] + rest)[1..] == rest;
  }

  lemma PiecesSayApart(ps: seq<Piece>, said: seq<ReadEvent>)
    requires PiecesSay(ps, said) && ps != []
    ensures PieceSays(ps[0], said[0]) && PiecesSay(ps[1..], said[1..])
  {
  }

  lemma PieceLinesApart(ps: seq<Piece>, rest: seq<string>)
    requires ps != []
    ensures PieceLines(ps) + rest == [ps[0].prefix + ps[0].data] + (PieceLines(ps[1..]) + rest)
  {
  }

  lemma HeadApart<T>(s: seq<T>, t: seq<T>)
    requires s != []
    ensures s + t == [s[0]] + (s[1..] + t)
  {
  }

  lemma {:induction false} EventsReadBack(ps: seq<Piece>, said: seq<ReadEvent>, rest: seq<string>,
                                          events: seq<ReadEvent>, packets: seq<ReadPacket>)
    requires PiecesSay(ps, said) && ReadBody(rest) == Some((events, packets))
    ensures ReadBody(PieceLines(ps) + rest) == Some((said + events, packets))
    decreases |ps|
  {
    if ps == [] {
      assert PieceLines(ps) + rest == rest && said + events == events;
    } else {
      PiecesSayApart(ps, said);
      PieceLinesApart(ps, rest);
      EventsReadBack(ps[1..], said[1..], rest, events, packets);
      ReadBodyEvent(ps[0], said[0], PieceLines(ps[1..]) + rest);
      HeadApart(said, events);
    }
  }

  lemma ReadBodyCitation(line: string, alias: nat, roles: seq<string>, rest: seq<string>)
    requires ReadBody(rest).Some? && "[E" <= line && ReadCitationLine(line) == Some((alias, roles))
    ensures ReadBody([line] + rest)
         == Some(([], [ReadPacket(alias, roles, ReadBody(rest).value.0)] + ReadBody(rest).value.1))
  {
    assert ([line] + rest)[1..] == rest;
  }

  lemma CitationOpens(alias: nat, p: Packet)
    ensures "[E" <= CitationLine(alias, p)
  {
  }

  lemma {:induction false} PacketsReadBack(packets: seq<Packet>, bs: seq<Block>, i: nat, rest: seq<string>)
    requires bs == BlocksOf(packets) && i <= |packets| && forall k :: 0 <= k < |packets| ==> LegiblePacket(packets[k])
    requires ReadBody(rest) == Some(([], []))
    ensures ReadBody(BlockLines(bs[i..]) + rest) == Some(([], SaidPackets(packets[i..], i + 1)))
    decreases |packets| - i
  {
    if i == |packets| {
      assert BlockLines(bs[i..]) + rest == rest;
    } else {
      var p, head := packets[i], bs[i].head;
      var pieces, later := PieceLines(bs[i].pieces), BlockLines(bs[i + 1..]) + rest;
      assert bs[i] == BlockOf(i + 1, p);
      assert bs[i..][1..] == bs[i + 1..] && packets[i..][1..] == packets[i + 1..];
      assert BlockLines(bs[i..]) + rest == [head] + (pieces + later);
      PacketsReadBack(packets, bs, i + 1, rest);
      PiecesSayEvents(p.events);
      EventsReadBack(bs[i].pieces, Said(p.events), later, [], SaidPackets(packets[i + 1..], i + 2));
      assert Said(p.events) + [] == Said(p.events);
      CitationOpens(i + 1, p);
      CitationLineReadsBack(i + 1, p);
      ReadBodyCitation(head, i + 1, p.roles, pieces + later);
    }
  }

  lemma {:induction false} PiecesAreOneLiners(ps: seq<Piece>, said: seq<ReadEvent>)
    requires PiecesSay(ps, said)
    ensures OneLiners(PieceLines(ps)) && CitationLines(PieceLines(ps)) == []
    decreases |ps|
  {
    if ps != [] {
      PiecesAreOneLiners(ps[1..], said[1..]);
      assert PieceSays(ps[0], said[0]);
      assert PieceLines(ps)[1..] == PieceLines(ps[1..]);
    }
  }

  /** The citation lines of `packets[i..]`. */
  function CitationsFrom(packets: seq<Packet>, i: nat): seq<string>
    requires i <= |packets|
    decreases |packets| - i
  {
    if i == |packets| then [] else [CitationLine(i + 1, packets[i])] + CitationsFrom(packets, i + 1)
  }

  lemma {:induction false} CitationLinesAppend(a: seq<string>, b: seq<string>)
    ensures CitationLines(a + b) == CitationLines(a) + CitationLines(b)
  {
    if a == [] {
      assert a + b == b;
    } else {
      assert (a + b)[1..] == a[1..] + b;
      CitationLinesAppend(a[1..], b);
    }
  }

  lemma {:induction false} BlocksAreOneLiners(packets: seq<Packet>, bs: seq<Block>, i: nat)
    requires bs == BlocksOf(packets) && i <= |packets| && forall k :: 0 <= k < |packets| ==> LegiblePacket(packets[k])
    ensures OneLiners(BlockLines(bs[i..]))
    ensures CitationLines(BlockLines(bs[i..])) == CitationsFrom(packets, i)
    decreases |packets| - i
  {
    if i < |packets| {
      var p, head := packets[i], bs[i].head;
      var pieces, later := PieceLines(bs[i].pieces), BlockLines(bs[i + 1..]);
      assert bs[i] == BlockOf(i + 1, p) && bs[i..][1..] == bs[i + 1..];
      BlocksAreOneLiners(packets, bs, i + 1);
      PiecesSayEvents(p.events);
      PiecesAreOneLiners(bs[i].pieces, Said(p.events));
      CitationIsOneLine(i + 1, p);
      CitationOpens(i + 1, p);
      LinesUnderHead(head, pieces, later);
    }
  }

  /** A citation line, lines that are none, and more lines. */
  lemma LinesUnderHead(head: string, pieces: seq<string>, later: seq<string>)
    requires '\n' !in head && "[E" <= head && OneLiners(pieces) && CitationLines(pieces) == [] && OneLiners(later)
    ensures OneLiners([head] + (pieces + later))
    ensures CitationLines([head] + (pieces + later)) == [head] + CitationLines(later)
  {
    CitationLinesAppend(pieces, later);
    assert ([head] + (pieces + later))[1..] == pieces + later;
  }

  /** The view can be read back: result token, acquisition, scope and coverage, and through the citations every
      packet. */
  lemma ViewReadsBack(b: Brief)
    requires Legible(b)
    ensures var frame := Frame(b.token, b.acquisition, b.acknowledged, b.persisted, b.coverage);
            ReadView(ViewText(b)) == Some((frame, SaidPackets(b.packets, 1)))
  {
    var bs, header := BlocksOf(b.packets), HeaderLines(b);
    ViewSplits(b);
    BodyReadsBack(b);
    FrameReadsBack(b);
    ReadWhole(ViewText(b), header, BlockLines(bs), CoverageLine(b.coverage),
              Frame(b.token, b.acquisition, b.acknowledged, b.persisted, b.coverage), SaidPackets(b.packets, 1));
  }

  lemma BodyReadsBack(b: Brief)
    requires Legible(b)
    ensures ReadBody(BlockLines(BlocksOf(b.packets)) + [CoverageLine(b.coverage), ""])
         == Some(([], SaidPackets(b.packets, 1)))
  {
    var bs := BlocksOf(b.packets);
    CoverageIsOneLine(b.coverage);
    assert bs[0..] == bs && b.packets[0..] == b.packets;
    PacketsReadBack(b.packets, bs, 0, [CoverageLine(b.coverage), ""]);
  }

  lemma ReadWhole(text: string, header: seq<string>, body: seq<string>, last: string, frame: Frame,
                  packets: seq<ReadPacket>)
    requires |header| == 7 && Split(text, '\n') == header + (body + [last, ""])
    requires ReadFrame(header, last) == Some(frame) && ReadBody(body + [last, ""]) == Some(([], packets))
    ensures ReadView(text) == Some((frame, packets))
  {
    var lines := header + (body + [last, ""]);
    assert lines[..7] == header && lines[7..] == body + [last, ""];
    assert lines[|lines| - 2] == last && lines[|lines| - 1] == "";
  }

  /** What a reader finds under the i-th citation: the alias i + 1, the packet's roles, and of every event its basis,
      its stream and its exact octets. */
  lemma {:induction false} SaidPacketsAt(packets: seq<Packet>, alias: nat, i: nat)
    requires i < |packets|
    ensures |SaidPackets(packets, alias)| == |packets|
    ensures var said := SaidPackets(packets, alias)[i];
            && said.alias == alias + i && said.roles == packets[i].roles && |said.events| == |packets[i].events|
            && forall j :: 0 <= j < |said.events| ==>
                 said.events[j].basis == packets[i].events[j].basis
                 && said.events[j].stream == packets[i].events[j].stream
                 && said.events[j].bytes == packets[i].events[j].bytes
  {
    SaidPacketsCount(packets, alias);
    if i > 0 { SaidPacketsAt(packets[1..], alias + 1, i - 1); }
  }

  lemma {:induction false} SaidPacketsCount(packets: seq<Packet>, alias: nat)
    ensures |SaidPackets(packets, alias)| == |packets|
  {
    if packets != [] { SaidPacketsCount(packets[1..], alias + 1); }
  }

  /** From the text of a view a reader recovers everything that the brief says. */
  lemma ViewSaysTheBrief(b: Brief, i: nat)
    requires Legible(b) && i < |b.packets|
    ensures ReadView(ViewText(b)).Some?
    ensures var (frame, packets) := ReadView(ViewText(b)).value;
            && frame.token == b.token && frame.acquisition == b.acquisition
            && frame.acknowledged == b.acknowledged && frame.persisted == b.persisted && frame.coverage == b.coverage
            && |packets| == |b.packets| && packets[i].alias == i + 1 && packets[i].roles == b.packets[i].roles
            && |packets[i].events| == |b.packets[i].events|
            && forall j :: 0 <= j < |packets[i].events| ==>
                 packets[i].events[j]
                 == ReadEvent(b.packets[i].events[j].basis, b.packets[i].events[j].stream, b.packets[i].events[j].bytes)
  {
    ViewReadsBack(b);
    SaidPacketsAt(b.packets, 1, i);
  }

  lemma ViewSplits(b: Brief)
    requires Legible(b)
    ensures Split(ViewText(b), '\n')
         == HeaderLines(b) + (BlockLines(BlocksOf(b.packets)) + [CoverageLine(b.coverage), ""])
  {
    var bs, header := BlocksOf(b.packets), HeaderLines(b);
    ViewTextIsLines(b);
    LinesAreOneLiners(b);
    SplitUnlines(ViewLines(b));
    RegroupLines(header, BlockLines(bs), CoverageLine(b.coverage));
  }

  lemma LinesAreOneLiners(b: Brief)
    requires Legible(b)
    ensures OneLiners(ViewLines(b))
  {
    var bs := BlocksOf(b.packets);
    HeaderIsOneLiners(b);
    assert bs[0..] == bs;
    BlocksAreOneLiners(b.packets, bs, 0);
  }

  lemma RegroupLines(header: seq<string>, body: seq<string>, last: string)
    ensures header + body + [last] + [""] == header + (body + [last, ""])
    ensures header + (body + [last]) + [""] == header + (body + [last, ""])
  {
  }

  lemma {:induction false} NoCitations(lines: seq<string>)
    requires forall i :: 0 <= i < |lines| ==> !("[E" <= lines[i])
    ensures CitationLines(lines) == []
  {
    if lines != [] { NoCitations(lines[1..]); }
  }

  /** Lines that open with `[E` are exactly the citation lines, one per packet in order, whatever the evidence says. */
  lemma CitationLinesAreCitations(b: Brief)
    requires Legible(b)
    ensures CitationLines(Split(ViewText(b), '\n')) == CitationsFrom(b.packets, 0)
  {
    var bs, header, last := BlocksOf(b.packets), HeaderLines(b), [CoverageLine(b.coverage), ""];
    ViewSplits(b);
    HeaderIsOneLiners(b);
    NoCitations(header);
    NoCitations(last);
    assert bs[0..] == bs;
    BlocksAreOneLiners(b.packets, bs, 0);
    CitationLinesAppend(header, BlockLines(bs) + last);
    CitationLinesAppend(BlockLines(bs), last);
  }
}
