/** Finding the encoded data fields of a rendered brief (first_party_log_brief.rs). */
module RangeScanner {
  import opened Prelude
  import opened Octets

  /** The text that may not contain a line feed. */
  predicate NoLf(s: string) {
    '\n' !in s
  }

  ghost predicate Free(s: string, m: string) {
    forall p :: !At(s, m, p)
  }

  /** A marker that starts with a line feed and whose only overlap with itself is the whole of it. */
  ghost predicate IsMarker(m: string) {
    m != [] && m[0] == '\n' && forall d :: 0 < d < |m| ==> ClashesAt(m, d)
  }

  /** Shifted by `d`, the marker disagrees with itself somewhere: it has no border of length `|m| - d`. */
  ghost predicate ClashesAt(m: string, d: nat) {
    exists i :: 0 <= i < |m| - d && m[i] != m[d + i]
  }

  // ---- The two markers ------------------------------------------------------------------------------------

  const PASSTHROUGH_FIRST := "    data_encoding: ascii_byte_escape_v1"
  const PASSTHROUGH_SECOND := "    data: "
  const COMPILED_FIRST := "      data_encoding: ascii_byte_escape_v1"
  const COMPILED_SECOND := "      data: "

  function TwoLines(first: string, second: string): string {
    "\n" + first + "\n" + second
  }

  const PASSTHROUGH_MARKER := TwoLines(PASSTHROUGH_FIRST, PASSTHROUGH_SECOND)
  const COMPILED_MARKER := TwoLines(COMPILED_FIRST, COMPILED_SECOND)

  /** Two lines make a marker when they differ at a common position. */
  lemma TwoLinesIsMarker(first: string, second: string, j: nat)
    requires NoLf(first) && NoLf(second) && j < |first| && j < |second| && first[j] != second[j]
    ensures IsMarker(TwoLines(first, second))
  {
    var m := TwoLines(first, second);
    forall d | 0 < d < |m| ensures ClashesAt(m, d) {
      if d == |first| + 1 {
        SecondLineAt(first, second, j);
        assert m[1 + j] != m[d + (1 + j)];
      } else {
        if d <= |first| { assert m[d] == first[d - 1]; } else { SecondLineAt(first, second, d - |first| - 2); }
        assert m[0] != m[d + 0];
      }
    }
  }

  lemma SecondLineAt(first: string, second: string, j: nat)
    requires j < |second|
    ensures TwoLines(first, second)[|first| + 2 + j] == second[j] && second[j] in second
  {
  }

  /** Neither of the two markers has a proper border. */
  lemma MarkersHaveNoBorder()
    ensures IsMarker(PASSTHROUGH_MARKER) && IsMarker(COMPILED_MARKER)
  {
    PassthroughHasNoBorder();
    CompiledHasNoBorder();
  }

  lemma PassthroughHasNoBorder()
    ensures IsMarker(PASSTHROUGH_MARKER)
  {
    TwoLinesIsMarker(PASSTHROUGH_FIRST, PASSTHROUGH_SECOND, 8);
  }

  lemma CompiledHasNoBorder()
    ensures IsMarker(COMPILED_MARKER)
  {
    TwoLinesIsMarker(COMPILED_FIRST, COMPILED_SECOND, 10);
  }

  // ---- The scanner ----------------------------------------------------------------------------------------

  datatype ScanError = RenderedGrammarMismatch | AccountingOverflow

  /** Where the marker starts, where the encoded data starts, and where it ends. */
  datatype Range = Range(context: nat, start: nat, end: nat)

  /** `windows(n).position(..)`: the first occurrence at or after `from`. */
  function FirstAt(s: string, m: string, from: nat): (p: Option<nat>)
    ensures p.Some? ==> from <= p.value <= |s| - |m|
    decreases |s| - from
  {
    if from > |s| - |m| then None
    else if At(s, m, from) then Some(from)
    else FirstAt(s, m, from + 1)
  }

  lemma {:induction false} FirstAtIsFirst(s: string, m: string, from: nat)
    ensures var p := FirstAt(s, m, from);
            && (p.Some? ==> At(s, m, p.value))
            && (forall q :: from <= q && (p.None? || q < p.value) ==> !At(s, m, q))
    decreases |s| - from
  {
    if from <= |s| - |m| && !At(s, m, from) {
      FirstAtIsFirst(s, m, from + 1);
    }
  }

  lemma {:induction false} FirstAtFinds(s: string, m: string, from: nat, p: nat)
    requires from <= p && At(s, m, p) && forall q :: from <= q < p ==> !At(s, m, q)
    ensures FirstAt(s, m, from) == Some(p)
    decreases p - from
  {
    if from < p { FirstAtFinds(s, m, from + 1, p); }
  }

  /** `iter().position(|byte| byte == LF)`: the first line feed at or after `from`. */
  function LineFeedFrom(s: string, from: nat): (p: Option<nat>)
    requires from <= |s|
    ensures p.Some? ==> from <= p.value < |s|
    decreases |s| - from
  {
    if from == |s| then None
    else if s[from] == '\n' then Some(from)
    else LineFeedFrom(s, from + 1)
  }

  lemma {:induction false} LineFeedIsFirst(s: string, from: nat)
    requires from <= |s| && LineFeedFrom(s, from).Some?
    ensures var p := LineFeedFrom(s, from).value; s[p] == '\n' && NoLf(s[from..p])
    decreases |s| - from
  {
    if s[from] != '\n' {
      LineFeedIsFirst(s, from + 1);
      var p := LineFeedFrom(s, from).value;
      assert s[from..p] == [s[from]] + s[from + 1..p];
    }
  }

  /** The next range from `cursor` on. */
  function NextRange(s: string, m: string, cursor: nat): (r: Result<Range, ScanError>)
    requires cursor <= |s|
    ensures r.Err? ==> r.error == RenderedGrammarMismatch
    ensures r.Ok? ==> cursor <= r.value.context && r.value.start == r.value.context + |m| <= r.value.end < |s|
  {
    var context := FirstAt(s, m, cursor);
    if context.None? then Err(RenderedGrammarMismatch)
    else
      var end := LineFeedFrom(s, context.value + |m|);
      if end.None? then Err(RenderedGrammarMismatch) else Ok(Range(context.value, context.value + |m|, end.value))
  }

  /** The scan from `cursor`, looking for `n` more ranges. */
  function Scan(s: string, m: string, n: nat, cursor: nat): (r: Result<seq<Range>, ScanError>)
    requires cursor <= |s|
    ensures r.Err? ==> r.error == RenderedGrammarMismatch
    ensures r.Ok? ==> |r.value| == n
  {
    if n == 0 then (if FirstAt(s, m, cursor).Some? then Err(RenderedGrammarMismatch) else Ok([]))
    else
      var next := NextRange(s, m, cursor);
      if next.Err? then Err(next.error) else Prepend([next.value], Scan(s, m, n - 1, next.value.end + 1))
  }

  function Prepend(front: seq<Range>, r: Result<seq<Range>, ScanError>): Result<seq<Range>, ScanError> {
    if r.Err? then r else Ok(front + r.value)
  }

  lemma PrependTwice(front: seq<Range>, range: Range, r: Result<seq<Range>, ScanError>)
    ensures Prepend(front, Prepend([range], r)) == Prepend(front + [range], r)
  {
    assert r.Ok? ==> front + ([range] + r.value) == (front + [range]) + r.value;
  }

  /** `locate_canonical_data_ranges`; a slice is shorter than 2^63 octets, so its checked additions never fail. */
  method LocateRanges(rendered: string, marker: string, expected: nat)
    returns (r: Result<seq<Range>, ScanError>)
    requires |rendered| < 0x8000_0000_0000_0000 && 0 < |marker| < 0x8000_0000_0000_0000
    ensures r == Scan(rendered, marker, expected, 0) && r != Err(AccountingOverflow)
  {
    var ranges: seq<Range> := [];
    var cursor: nat := 0;
    for i := 0 to expected
      invariant cursor <= |rendered|
      invariant ScanOn(rendered, marker, expected, 0, []) == ScanOn(rendered, marker, expected - i, cursor, ranges)
    {
      var range := LocateNext(rendered, marker, cursor);
      if range.Err? {
        ScanOnIsScan(rendered, marker, expected, 0, []);
        return Err(range.error);
      }
      ranges := ranges + [range.value];
      cursor := range.value.end + 1;
    }
    ScanOnIsScan(rendered, marker, expected, 0, []);
    if FirstAt(rendered, marker, cursor).Some? { return Err(RenderedGrammarMismatch); }
    return Ok(ranges);
  }

  /** The scan as a loop sees it, with the ranges found so far. */
  function ScanOn(s: string, m: string, n: nat, cursor: nat, found: seq<Range>): Result<seq<Range>, ScanError>
    requires cursor <= |s|
    decreases n
  {
    if n == 0 then (if FirstAt(s, m, cursor).Some? then Err(RenderedGrammarMismatch) else Ok(found))
    else
      var next := NextRange(s, m, cursor);
      if next.Err? then Err(next.error) else ScanOn(s, m, n - 1, next.value.end + 1, found + [next.value])
  }

  lemma {:induction false} ScanOnIsScan(s: string, m: string, n: nat, cursor: nat, found: seq<Range>)
    requires cursor <= |s|
    ensures ScanOn(s, m, n, cursor, found) == Prepend(found, Scan(s, m, n, cursor))
    ensures found == [] ==> ScanOn(s, m, n, cursor, found) == Scan(s, m, n, cursor)
    decreases n
  {
    var next := NextRange(s, m, cursor);
    if n == 0 {
      assert found + [] == found;
    } else if next.Ok? {
      var rest := Scan(s, m, n - 1, next.value.end + 1);
      ScanOnIsScan(s, m, n - 1, next.value.end + 1, found + [next.value]);
      PrependTwice(found, next.value, rest);
    }
    PrependNothing(Scan(s, m, n, cursor));
  }

  lemma PrependNothing(r: Result<seq<Range>, ScanError>)
    ensures Prepend([], r) == r
  {
    assert r.Ok? ==> [] + r.value == r.value;
  }

  /** The body of its loop. */
  method LocateNext(rendered: string, marker: string, cursor: nat) returns (r: Result<Range, ScanError>)
    requires |rendered| < 0x8000_0000_0000_0000 && 0 < |marker| < 0x8000_0000_0000_0000 && cursor <= |rendered|
    ensures r == NextRange(rendered, marker, cursor)
  {
    var context := FirstAt(rendered, marker, cursor);
    if context.None? { return Err(RenderedGrammarMismatch); }
    var start := CheckedAdd(context.value, |marker|);
    if start.None? { return Err(AccountingOverflow); }
    var end := LineFeedFrom(rendered, start.value);
    if end.None? { return Err(RenderedGrammarMismatch); }
    var next := CheckedAdd(end.value, 1);
    if next.None? { return Err(AccountingOverflow); }
    return Ok(Range(context.value, start.value, end.value));
  }

  // ---- What a successful scan says ------------------------------------------------------------------------

  /** One returned range, found by a search that started at `from`. */
  ghost predicate RangeIsRight(s: string, m: string, from: nat, r: Range) {
    && from <= r.context && r.start == r.context + |m| && r.start <= r.end < |s|
    && At(s, m, r.context) && NoLf(s[r.start..r.end]) && s[r.end] == '\n'
  }

  /** Two overlapping occurrences would make a border. */
  lemma NoOverlap(s: string, m: string, p: int, q: int)
    requires IsMarker(m) && p < q < p + |m|
    ensures !(At(s, m, p) && At(s, m, q))
  {
    var d := q - p;
    assert ClashesAt(m, d);
    var i :| 0 <= i < |m| - d && m[i] != m[d + i];
    assert At(s, m, p) ==> s[p..p + |m|][d + i] == s[q + i];
    assert At(s, m, q) ==> s[q..q + |m|][i] == s[q + i];
  }

  lemma AtStarts(s: string, m: string, q: int)
    requires At(s, m, q) && m != []
    ensures s[q] == m[0]
  {
    assert s[q..q + |m|][0] == s[q];
  }

  lemma NoMarkerWithoutLf(s: string, m: string, from: nat, to: nat, q: int)
    requires IsMarker(m) && from <= q < to <= |s| && NoLf(s[from..to])
    ensures !At(s, m, q)
  {
    assert s[q] == s[from..to][q - from] && s[from..to][q - from] in s[from..to];
    if At(s, m, q) { AtStarts(s, m, q); }
  }

  /** The scan from `cursor` on returned `rs`. */
  ghost predicate Scanned(s: string, m: string, cursor: nat, rs: seq<Range>) {
    cursor <= |s| && Scan(s, m, |rs|, cursor) == Ok(rs)
  }

  /** What a successful scan found first. */
  lemma ScanHead(s: string, m: string, cursor: nat, rs: seq<Range>)
    requires Scanned(s, m, cursor, rs) && rs != []
    ensures RangeIsRight(s, m, cursor, rs[0]) && Scanned(s, m, rs[0].end + 1, rs[1..])
    ensures forall q :: cursor <= q < rs[0].context ==> !At(s, m, q)
  {
    FirstAtIsFirst(s, m, cursor);
    LineFeedIsFirst(s, rs[0].start);
    var rest := Scan(s, m, |rs| - 1, rs[0].end + 1);
    assert rs == [rs[0]] + rest.value;
    assert rs[1..] == rest.value;
  }

  /** Where the search for the `i`-th range starts. */
  function SearchStart(cursor: nat, rs: seq<Range>, i: nat): nat
    requires i < |rs|
  {
    if i == 0 then cursor else rs[i - 1].end + 1
  }

  /** Soundness on any text: ranges are ordered and disjoint, each is a marker, line-feed-free data and a line feed. */
  lemma {:induction false} ScanSound(s: string, m: string, cursor: nat, rs: seq<Range>, i: nat)
    requires Scanned(s, m, cursor, rs) && i < |rs|
    ensures RangeIsRight(s, m, SearchStart(cursor, rs, i), rs[i])
    decreases |rs|
  {
    ScanHead(s, m, cursor, rs);
    if i > 0 {
      ScanSound(s, m, rs[0].end + 1, rs[1..], i - 1);
      assert rs[i] == rs[1..][i - 1];
      assert SearchStart(cursor, rs, i) == SearchStart(rs[0].end + 1, rs[1..], i - 1);
    }
  }

  ghost predicate Accounted(rs: seq<Range>, q: nat) {
    exists i :: 0 <= i < |rs| && (q == rs[i].context || q == rs[i].end)
  }

  lemma AccountedLater(rs: seq<Range>, q: nat)
    requires rs != [] && Accounted(rs[1..], q)
    ensures Accounted(rs, q)
  {
    var i :| 0 <= i < |rs[1..]| && (q == rs[1..][i].context || q == rs[1..][i].end);
    assert rs[1..][i] == rs[i + 1];
  }

  /** Every occurrence of the marker is the start of a returned range, or begins at the line feed that ends one. */
  lemma {:induction false} ScanMissesNothing(s: string, m: string, cursor: nat, rs: seq<Range>, q: nat)
    requires IsMarker(m) && Scanned(s, m, cursor, rs) && cursor <= q && At(s, m, q)
    ensures Accounted(rs, q)
    decreases |rs|
  {
    if rs == [] {
      FirstAtIsFirst(s, m, cursor);
    } else {
      ScanHead(s, m, cursor, rs);
      OtherOccurrence(s, m, rs[0], q);
      if rs[0].end < q {
        ScanMissesNothing(s, m, rs[0].end + 1, rs[1..], q);
        AccountedLater(rs, q);
      }
    }
  }

  lemma OtherOccurrence(s: string, m: string, r: Range, q: nat)
    requires IsMarker(m) && At(s, m, q) && At(s, m, r.context) && r.start == r.context + |m| <= r.end < |s|
    requires r.context <= q && NoLf(s[r.start..r.end])
    ensures q == r.context || q >= r.end
  {
    if r.context < q < r.start { NoOverlap(s, m, r.context, q); }
    if r.start <= q < r.end { NoMarkerWithoutLf(s, m, r.start, r.end, q); }
  }

  // ---- Exactly which texts scan ---------------------------------------------------------------------------

  /** Marker-free gaps, each followed by the marker, line-feed-free data and a line feed, then a marker-free tail. */
  datatype Slot = Slot(gap: string, data: string)

  function Document(m: string, slots: seq<Slot>, tail: string): string {
    if slots == [] then tail
    else slots[0].gap + m + slots[0].data + "\n" + Document(m, slots[1..], tail)
  }

  ghost predicate WellMade(m: string, slots: seq<Slot>, tail: string) {
    Free(tail, m) && forall i :: 0 <= i < |slots| ==> Free(slots[i].gap, m) && NoLf(slots[i].data)
  }

  /** Where the data of each slot lies when the document starts at `offset`. */
  function SlotRanges(m: string, slots: seq<Slot>, offset: nat): (rs: seq<Range>)
    ensures |rs| == |slots|
  {
    if slots == [] then []
    else
      var context := offset + |slots[0].gap|;
      var start := context + |m|;
      var end := start + |slots[0].data|;
      [Range(context, start, end)] + SlotRanges(m, slots[1..], end + 1)
  }

  /** Occurrences inside a part of a text are occurrences in the text. */
  lemma AtPart(s: string, part: string, offset: nat, m: string, j: int)
    requires offset + |part| <= |s| && s[offset..offset + |part|] == part && 0 <= j <= |part| - |m|
    ensures At(s, m, offset + j) <==> At(part, m, j)
  {
    var a, b := part[j..j + |m|], s[offset + j..offset + j + |m|];
    forall i | 0 <= i < |m| ensures a[i] == b[i] {
      assert s[offset..offset + |part|][j + i] == s[offset + j + i];
    }
    assert a == b;
  }

  /** From `from` on, `s` holds the gap, the marker, the data and a line feed. */
  ghost predicate SlotAt(s: string, from: nat, gap: string, m: string, data: string) {
    var context := from + |gap|;
    var start := context + |m|;
    && start + |data| < |s| && s[from..context] == gap && At(s, m, context)
    && s[start..start + |data|] == data && s[start + |data|] == '\n'
  }

  lemma SlotLeads(gap: string, m: string, data: string, later: string)
    ensures SlotAt(gap + m + data + "\n" + later, 0, gap, m, data)
  {
  }

  /** A gap hides no occurrence, not even one that runs into the marker after it. */
  lemma FirstAfterGap(s: string, from: nat, gap: string, m: string, data: string)
    requires IsMarker(m) && Free(gap, m) && SlotAt(s, from, gap, m, data)
    ensures FirstAt(s, m, from) == Some(from + |gap|)
  {
    var p := from + |gap|;
    forall q | from <= q < p ensures !At(s, m, q) {
      if q + |m| <= p {
        AtPart(s, gap, from, m, q - from);
      } else {
        NoOverlap(s, m, q, p);
      }
    }
    FirstAtFinds(s, m, from, p);
  }

  lemma {:induction false} FirstLineFeed(s: string, from: nat, data: string)
    requires NoLf(data) && from + |data| < |s| && s[from..from + |data|] == data && s[from + |data|] == '\n'
    ensures LineFeedFrom(s, from) == Some(from + |data|)
    decreases |data|
  {
    if data != [] {
      assert s[from] == data[0] && data[0] in data;
      assert s[from + 1..from + 1 + |data[1..]|] == data[1..];
      FirstLineFeed(s, from + 1, data[1..]);
    }
  }

  lemma NextRangeIs(s: string, m: string, cursor: nat, r: Range)
    requires cursor <= |s| && FirstAt(s, m, cursor) == Some(r.context) && r.start == r.context + |m|
    requires LineFeedFrom(s, r.start) == Some(r.end)
    ensures NextRange(s, m, cursor) == Ok(r)
  {
  }

  lemma ScanStep(s: string, m: string, n: nat, cursor: nat, r: Range)
    requires n > 0 && cursor <= |s| && NextRange(s, m, cursor) == Ok(r)
    ensures Scan(s, m, n, cursor) == Prepend([r], Scan(s, m, n - 1, r.end + 1))
  {
  }

  lemma FirstSlot(s: string, from: nat, gap: string, m: string, data: string, r: Range)
    requires IsMarker(m) && Free(gap, m) && NoLf(data) && SlotAt(s, from, gap, m, data)
    requires r == Range(from + |gap|, from + |gap| + |m|, from + |gap| + |m| + |data|)
    ensures NextRange(s, m, from) == Ok(r)
  {
    FirstAfterGap(s, from, gap, m, data);
    FirstLineFeed(s, r.start, data);
    NextRangeIs(s, m, from, r);
  }

  lemma SlotRangesApart(m: string, slots: seq<Slot>, offset: nat, r: Range)
    requires slots != []
    requires r.context == offset + |slots[0].gap| && r.start == r.context + |m| && r.end == r.start + |slots[0].data|
    ensures SlotRanges(m, slots, offset) == [r] + SlotRanges(m, slots[1..], r.end + 1)
  {
  }

  /** Completeness: on a well-made document the scan returns exactly the data slots. */
  lemma {:induction false} ScanFindsSlots(s: string, from: nat, m: string, slots: seq<Slot>, tail: string)
    requires IsMarker(m) && WellMade(m, slots, tail) && from <= |s| && s[from..] == Document(m, slots, tail)
    ensures Scan(s, m, |slots|, from) == Ok(SlotRanges(m, slots, from))
    decreases |slots|
  {
    if slots == [] {
      FreeToTheEnd(s, from, m);
    } else {
      var context := from + |slots[0].gap|;
      var r := Range(context, context + |m|, context + |m| + |slots[0].data|);
      DocumentNext(s, from, m, slots, tail, r);
      ScanFindsSlots(s, r.end + 1, m, slots[1..], tail);
      ScanStep(s, m, |slots|, from, r);
      SlotRangesApart(m, slots, from, r);
    }
  }

  lemma WellMadeRest(m: string, slots: seq<Slot>, tail: string)
    requires slots != [] && WellMade(m, slots, tail)
    ensures WellMade(m, slots[1..], tail) && Free(slots[0].gap, m) && NoLf(slots[0].data)
  {
  }

  /** The scan finds the first slot of a document, and what follows is a document again. */
  lemma DocumentNext(s: string, from: nat, m: string, slots: seq<Slot>, tail: string, r: Range)
    requires IsMarker(m) && slots != [] && WellMade(m, slots, tail)
    requires from <= |s| && s[from..] == Document(m, slots, tail)
    requires r.context == from + |slots[0].gap| && r.start == r.context + |m| && r.end == r.start + |slots[0].data|
    ensures r.end + 1 <= |s| && s[r.end + 1..] == Document(m, slots[1..], tail)
    ensures NextRange(s, m, from) == Ok(r) && WellMade(m, slots[1..], tail)
  {
    WellMadeRest(m, slots, tail);
    DocumentSlot(s, from, m, slots, tail, r);
    FirstSlot(s, from, slots[0].gap, m, slots[0].data, r);
  }

  /** The first slot of a document, and where the rest of it starts. */
  lemma DocumentSlot(s: string, from: nat, m: string, slots: seq<Slot>, tail: string, r: Range)
    requires slots != [] && from <= |s| && s[from..] == Document(m, slots, tail)
    requires r.context == from + |slots[0].gap| && r.start == r.context + |m| && r.end == r.start + |slots[0].data|
    ensures SlotAt(s, from, slots[0].gap, m, slots[0].data)
    ensures r.end + 1 <= |s| && s[r.end + 1..] == Document(m, slots[1..], tail)
  {
    var gap, data, later := slots[0].gap, slots[0].data, Document(m, slots[1..], tail);
    SlotLeads(gap, m, data, later);
    SlotShifts(s, from, gap, m, data);
    var part := gap + m + data + "\n" + later;
    assert part[|part| - |later|..] == later;
    assert s[r.end + 1..] == s[from..][r.end + 1 - from..];
  }

  lemma SlotShifts(s: string, from: nat, gap: string, m: string, data: string)
    requires from <= |s| && SlotAt(s[from..], 0, gap, m, data)
    ensures SlotAt(s, from, gap, m, data)
  {
    var t, start := s[from..], |gap| + |m|;
    assert s[from..from + |gap|] == t[0..|gap|];
    assert s[from + |gap|..from + start] == t[|gap|..start];
    assert s[from + start..from + start + |data|] == t[start..start + |data|];
  }

  lemma FreeToTheEnd(s: string, from: nat, m: string)
    requires from <= |s| && m != [] && Free(s[from..], m)
    ensures FirstAt(s, m, from).None?
  {
    forall q | from <= q ensures !At(s, m, q) {
      if q <= |s| - |m| { AtPart(s, s[from..], from, m, q - from); }
    }
    FirstAtIsFirst(s, m, from);
  }

  ghost predicate IsDocument(s: string, m: string, ranges: seq<Range>) {
    exists slots, tail :: WellMade(m, slots, tail) && s == Document(m, slots, tail) && ranges == SlotRanges(m, slots, 0)
  }

  /** The slots and tail that a successful scan cuts out of the text. */
  lemma {:induction false} ScanCutsDocument(s: string, m: string, cursor: nat, rs: seq<Range>)
    returns (slots: seq<Slot>, tail: string)
    requires IsMarker(m) && Scanned(s, m, cursor, rs)
    ensures |slots| == |rs| && WellMade(m, slots, tail) && s[cursor..] == Document(m, slots, tail)
    ensures rs == SlotRanges(m, slots, cursor)
    decreases |rs|
  {
    if rs == [] {
      slots, tail := [], s[cursor..];
      FreeToEnd(s, m, cursor);
    } else {
      var r := rs[0];
      ScanHead(s, m, cursor, rs);
      FreeBetween(s, m, cursor, r.context);
      var rest;
      rest, tail := ScanCutsDocument(s, m, r.end + 1, rs[1..]);
      slots := [Slot(s[cursor..r.context], s[r.start..r.end])] + rest;
      AddSlot(s, m, cursor, r, rest, tail);
      HeadAndTail(rs);
    }
  }

  lemma HeadAndTail(rs: seq<Range>)
    requires rs != []
    ensures rs == [rs[0]] + rs[1..]
  {
  }

  lemma FreeBetween(s: string, m: string, from: nat, to: nat)
    requires from <= to <= |s| && m != [] && forall q :: from <= q < to ==> !At(s, m, q)
    ensures Free(s[from..to], m)
  {
    forall p ensures !At(s[from..to], m, p) {
      if 0 <= p <= to - from - |m| {
        AtPart(s, s[from..to], from, m, p);
        assert !At(s, m, from + p);
      }
    }
  }

  lemma FreeToEnd(s: string, m: string, cursor: nat)
    requires m != [] && cursor <= |s| && Scan(s, m, 0, cursor).Ok?
    ensures Free(s[cursor..], m)
  {
    FirstAtIsFirst(s, m, cursor);
    FreeBetween(s, m, cursor, |s|);
    assert s[cursor..|s|] == s[cursor..];
  }

  lemma AddSlot(s: string, m: string, cursor: nat, r: Range, rest: seq<Slot>, tail: string)
    requires RangeIsRight(s, m, cursor, r) && Free(s[cursor..r.context], m) && WellMade(m, rest, tail)
    requires s[r.end + 1..] == Document(m, rest, tail)
    ensures var slots := [Slot(s[cursor..r.context], s[r.start..r.end])] + rest;
            && WellMade(m, slots, tail) && s[cursor..] == Document(m, slots, tail)
            && SlotRanges(m, slots, cursor) == [r] + SlotRanges(m, rest, r.end + 1)
  {
    var slots := [Slot(s[cursor..r.context], s[r.start..r.end])] + rest;
    assert slots[1..] == rest;
    CutIsWhole(s, cursor, r.context, r.start, r.end);
  }

  lemma CutIsWhole(s: string, a: nat, b: nat, c: nat, d: nat)
    requires a <= b <= c <= d < |s| && s[d] == '\n'
    ensures s[a..] == s[a..b] + s[b..c] + s[c..d] + "\n" + s[d + 1..]
  {
  }

  /** A text scans exactly when it is a well-made document with that many slots, and then the ranges are its slots. */
  lemma ScanExactlyDocuments(s: string, m: string, n: nat, ranges: seq<Range>)
    requires IsMarker(m)
    ensures Scan(s, m, n, 0) == Ok(ranges) <==> |ranges| == n && IsDocument(s, m, ranges)
  {
    if Scan(s, m, n, 0) == Ok(ranges) {
      var slots, tail := ScanCutsDocument(s, m, 0, ranges);
      assert s[0..] == s;
    }
    if |ranges| == n && IsDocument(s, m, ranges) {
      var slots, tail :| WellMade(m, slots, tail) && s == Document(m, slots, tail) && ranges == SlotRanges(m, slots, 0);
      assert s[0..] == s;
      ScanFindsSlots(s, 0, m, slots, tail);
    }
  }
}
