/** The user message of the hosted reader, which can be decoded in one way only (hosted_reader_jsonl.rs). */
module HostedMessage {
  import opened Prelude
  import opened Octets

  datatype Target = EventTarget(event: nat) | BlockTarget(block: nat)

  datatype Handle = Handle(handle: nat, targets: seq<Target>)

  datatype MessageError = ModelVisibleInputNotUtf8 | InvalidCitationCatalog

  /** What one catalog row says of a citation: its handle, what kind of targets, and how many. */
  datatype Row = Row(handle: nat, kind: string, count: nat)

  /** Everything the message says. */
  datatype Message = Message(question: string, context: string, methodName: string, methodVersion: string,
                             artifact: string, catalog: seq<Row>)

  const MAX_CODE_BYTES: nat := 256

  const VERSION_NAME := "\nmethod_version="

  const SECTION_NAME := "method_artifact_utf8_bytes="

  const ARTIFACT_NAME := "\n" + SECTION_NAME

  const USER_HEADER := "EVIDENTRAIL_BENCH_HOSTED_READER_USER_V1\n"

  // ---- Encoding -------------------------------------------------------------------------------------------

  /** `append_named_utf8_section`: the length is written before the octets, so the octets may be anything. */
  function Section(name: string, value: string): string {
    name + (Decimal(|value|) + ("\n" + (value + "\n")))
  }

  function EncodeRow(r: Row): string {
    "citation_handle=" + (Decimal(r.handle) + (" kind=" + (r.kind + (" target_count=" + (Decimal(r.count) + "\n")))))
  }

  function EncodeRows(rows: seq<Row>): string {
    if rows == [] then "" else EncodeRow(rows[0]) + EncodeRows(rows[1..])
  }

  function EncodeCatalog(rows: seq<Row>): string {
    "citation_catalog_count=" + (Decimal(|rows|) + ("\n" + EncodeRows(rows)))
  }

  function EncodeMethod(m: Message): string {
    "method_name=" + (m.methodName + (VERSION_NAME + (m.methodVersion
      + ("\n" + (Section(SECTION_NAME, m.artifact) + EncodeCatalog(m.catalog))))))
  }

  function Encode(m: Message): string {
    USER_HEADER + (Section("question_utf8_bytes=", m.question)
      + (Section("context_utf8_bytes=", m.context) + EncodeMethod(m)))
  }

  predicate HasEvent(targets: seq<Target>) {
    exists t | t in targets :: t.EventTarget?
  }

  predicate HasBlock(targets: seq<Target>) {
    exists t | t in targets :: t.BlockTarget?
  }

  /** The row of a handle; a handle without targets has none. */
  function RowOf(h: Handle): (r: Option<Row>)
    ensures r.None? <==> h.targets == []
  {
    var event, block := HasEvent(h.targets), HasBlock(h.targets);
    assert h.targets != [] ==> h.targets[0] in h.targets;
    if event && !block then Some(Row(h.handle, "event_set", |h.targets|))
    else if !event && block then Some(Row(h.handle, "block_set", |h.targets|))
    else if event && block then Some(Row(h.handle, "mixed_set", |h.targets|))
    else None
  }

  function RowsOf(hs: seq<Handle>): (rows: seq<Row>)
    requires forall i :: 0 <= i < |hs| ==> hs[i].targets != []
    ensures |rows| == |hs|
  {
    seq(|hs|, i requires 0 <= i < |hs| => RowOf(hs[i]).value)
  }

  /** What one pass over the targets of a citation finds. */
  method FindKind(h: Handle) returns (row: Option<Row>)
    ensures row == RowOf(h)
  {
    var event, block := false, false;
    for k := 0 to |h.targets|
      invariant event == HasEvent(h.targets[..k]) && block == HasBlock(h.targets[..k])
    {
      KindsNext(h.targets, k);
      if h.targets[k].EventTarget? { event := true; } else { block := true; }
    }
    assert h.targets[..|h.targets|] == h.targets;
    if !event && !block { return None; }
    var kind := if event && block then "mixed_set" else if event then "event_set" else "block_set";
    return Some(Row(h.handle, kind, |h.targets|));
  }

  /** The catalog rows, one citation after the other. */
  method BuildRows(handles: seq<Handle>) returns (r: Result<string, MessageError>)
    ensures r.Ok? <==> forall i :: 0 <= i < |handles| ==> handles[i].targets != []
    ensures r.Ok? ==> r.value == EncodeRows(RowsOf(handles))
    ensures r.Err? ==> r.error == InvalidCitationCatalog
  {
    var rows := "";
    for i := 0 to |handles|
      invariant forall k :: 0 <= k < i ==> handles[k].targets != []
      invariant rows == EncodeRows(RowsOf(handles[..i]))
    {
      var row := FindKind(handles[i]);
      if row.None? { return Err(InvalidCitationCatalog); }
      RowsNext(handles, i, row.value);
      rows := rows + EncodeRow(row.value);
    }
    assert handles[..|handles|] == handles;
    return Ok(rows);
  }

  /** `HostedReaderModelMessagesV1::try_new`, the user part; `utf8` is the library's validity check. */
  method BuildUser(utf8: string -> bool, question: string, context: string, methodName: string,
                   methodVersion: string, artifact: string, handles: seq<Handle>)
    returns (r: Result<string, MessageError>)
    ensures r.Ok? <==> utf8(question) && utf8(context) && utf8(artifact)
                       && forall i :: 0 <= i < |handles| ==> handles[i].targets != []
    ensures r.Ok? ==> r.value == Encode(Message(question, context, methodName, methodVersion, artifact,
            RowsOf(handles)))
    ensures r.Err? ==> r.error == if utf8(question) && utf8(context) && utf8(artifact) then InvalidCitationCatalog
                                  else ModelVisibleInputNotUtf8
  {
    if !utf8(question) || !utf8(context) || !utf8(artifact) { return Err(ModelVisibleInputNotUtf8); }
    var rows := BuildRows(handles);
    if rows.Err? { return Err(rows.error); }
    var catalog := "citation_catalog_count=" + (Decimal(|handles|) + ("\n" + rows.value));
    var tail := "method_name=" + (methodName + (VERSION_NAME + (methodVersion
      + ("\n" + (Section(SECTION_NAME, artifact) + catalog)))));
    return Ok(USER_HEADER + (Section("question_utf8_bytes=", question)
      + (Section("context_utf8_bytes=", context) + tail)));
  }

  lemma KindsNext(ts: seq<Target>, k: nat)
    requires k < |ts|
    ensures HasEvent(ts[..k + 1]) == (HasEvent(ts[..k]) || ts[k].EventTarget?)
    ensures HasBlock(ts[..k + 1]) == (HasBlock(ts[..k]) || ts[k].BlockTarget?)
  {
    assert ts[..k + 1] == ts[..k] + [ts[k]];
  }

  lemma RowsNext(hs: seq<Handle>, i: nat, row: Row)
    requires i < |hs| && (forall k :: 0 <= k < i ==> hs[k].targets != []) && RowOf(hs[i]) == Some(row)
    ensures EncodeRows(RowsOf(hs[..i + 1])) == EncodeRows(RowsOf(hs[..i])) + EncodeRow(row)
  {
    var rows := RowsOf(hs[..i]);
    assert RowsOf(hs[..i + 1]) == rows + [row];
    EncodeRowsAppend(rows, row);
  }

  lemma {:induction false} EncodeRowsAppend(rows: seq<Row>, row: Row)
    ensures EncodeRows(rows + [row]) == EncodeRows(rows) + EncodeRow(row)
  {
    if rows == [] {
      assert rows + [row] == [row] && [row][1..] == [];
      assert EncodeRow(row) + "" == EncodeRow(row) && "" + EncodeRow(row) == EncodeRow(row);
    } else {
      assert (rows + [row])[1..] == rows[1..] + [row];
      EncodeRowsAppend(rows[1..], row);
      Regroup(EncodeRow(rows[0]), EncodeRows(rows[1..]), EncodeRow(row));
    }
  }

  // ---- Decoding -------------------------------------------------------------------------------------------

  function ReadSection(s: string, name: string): Option<(string, string)> {
    var sized := ReadNumbered(s, name);
    if sized.None? then None else
    var n := sized.value.0;
    var body := Strip(sized.value.1, "\n");
    if body.None? || |body.value| <= n || body.value[n] != '\n' then None
    else Some((body.value[..n], body.value[n + 1..]))
  }

  function ReadRow(s: string): Option<(Row, string)> {
    var handle := ReadNumbered(s, "citation_handle=");
    if handle.None? then None else
    var kind := ReadUntil(handle.value.1, " kind=", ' ');
    if kind.None? then None else
    var count := ReadNumbered(kind.value.1, " target_count=");
    if count.None? then None else
    var rest := Strip(count.value.1, "\n");
    if rest.None? then None else Some((Row(handle.value.0, kind.value.0, count.value.0), rest.value))
  }

  function ReadRows(s: string, n: nat): Option<seq<Row>>
    decreases n
  {
    if n == 0 then (if s == "" then Some([]) else None)
    else
      var row := ReadRow(s);
      if row.None? then None else
      var rest := ReadRows(row.value.1, n - 1);
      if rest.None? then None else Some([row.value.0] + rest.value)
  }

  function ReadCatalog(s: string): Option<seq<Row>> {
    var count := ReadNumbered(s, "citation_catalog_count=");
    if count.None? then None else
    var rows := Strip(count.value.1, "\n");
    if rows.None? then None else ReadRows(rows.value, count.value.0)
  }

  /** Method name and version, artifact and catalog. */
  function ReadMethod(s: string): Option<(string, string, string, seq<Row>)> {
    var name := ReadUntil(s, "method_name=", '\n');
    if name.None? then None else
    var version := ReadUntil(name.value.1, "\nmethod_version=", '\n');
    if version.None? then None else
    var body := Strip(version.value.1, "\n");
    if body.None? then None else
    var artifact := ReadSection(body.value, "method_artifact_utf8_bytes=");
    if artifact.None? then None else
    var catalog := ReadCatalog(artifact.value.1);
    if catalog.None? then None
    else Some((name.value.0, version.value.0, artifact.value.0, catalog.value))
  }

  function Decode(s: string): Option<Message> {
    var body := Strip(s, "EVIDENTRAIL_BENCH_HOSTED_READER_USER_V1\n");
    if body.None? then None else
    var question := ReadSection(body.value, "question_utf8_bytes=");
    if question.None? then None else
    var context := ReadSection(question.value.1, "context_utf8_bytes=");
    if context.None? then None else
    var tail := ReadMethod(context.value.1);
    if tail.None? then None
    else Some(Message(question.value.0, context.value.0, tail.value.0, tail.value.1, tail.value.2, tail.value.3))
  }

  /** A section reads back, even when its octets look like headers or sections themselves. */
  lemma SectionReadsBack(name: string, value: string, rest: string)
    ensures ReadSection(Section(name, value) + rest, name) == Some((value, rest))
  {
    var body := value + "\n" + rest;
    assert Section(name, value) + rest == name + (Decimal(|value|) + ("\n" + body));
    ReadNumberedBack(name, |value|, "\n" + body);
    StripBack("\n", body);
    assert body[..|value|] == value && body[|value| + 1..] == rest;
  }

  predicate IsKind(kind: string) {
    kind == "event_set" || kind == "block_set" || kind == "mixed_set"
  }

  lemma RowText(a: string, b: string, c: string, d: string, e: string, f: string, g: string, rest: string)
    ensures (a + (b + (c + (d + (e + (f + g)))))) + rest == a + (b + (c + (d + (e + (f + (g + rest))))))
  {
    Regroup(a, b + (c + (d + (e + (f + g)))), rest);
    Regroup(b, c + (d + (e + (f + g))), rest);
    Regroup(c, d + (e + (f + g)), rest);
    Regroup(d, e + (f + g), rest);
    Regroup(e, f + g, rest);
    Regroup(f, g, rest);
  }

  lemma RowReadsBack(r: Row, rest: string)
    requires IsKind(r.kind)
    ensures ReadRow(EncodeRow(r) + rest) == Some((r, rest))
  {
    var count := " target_count=" + (Decimal(r.count) + ("\n" + rest));
    var kind := " kind=" + (r.kind + count);
    RowText("citation_handle=", Decimal(r.handle), " kind=", r.kind, " target_count=", Decimal(r.count), "\n", rest);
    ReadNumberedBack("citation_handle=", r.handle, kind);
    ReadUntilBack(" kind=", r.kind, ' ', count);
    ReadNumberedBack(" target_count=", r.count, "\n" + rest);
    StripBack("\n", rest);
  }

  lemma {:induction false} RowsReadBack(rows: seq<Row>)
    requires forall i :: 0 <= i < |rows| ==> IsKind(rows[i].kind)
    ensures ReadRows(EncodeRows(rows), |rows|) == Some(rows)
  {
    if rows != [] {
      RowReadsBack(rows[0], EncodeRows(rows[1..]));
      RowsReadBack(rows[1..]);
      assert rows == [rows[0]] + rows[1..];
    }
  }

  lemma CatalogReadsBack(rows: seq<Row>)
    requires forall i :: 0 <= i < |rows| ==> IsKind(rows[i].kind)
    ensures ReadCatalog(EncodeCatalog(rows)) == Some(rows)
  {
    ReadNumberedBack("citation_catalog_count=", |rows|, "\n" + EncodeRows(rows));
    StripBack("\n", EncodeRows(rows));
    RowsReadBack(rows);
  }

  /** `validate_method_descriptor_v1`, which runs when the method artifact is built and not here. */
  predicate ValidDescriptor(name: string, version: string) {
    name != "" && version != "" && |name| <= MAX_CODE_BYTES && |version| <= MAX_CODE_BYTES
    && (forall i :: 0 <= i < |name| ==> '!' <= name[i] <= '~')
    && forall i :: 0 <= i < |version| ==> '!' <= version[i] <= '~'
  }

  /** No line feed in the method's name or version. */
  ghost predicate OneLine(m: Message) {
    '\n' !in m.methodName && '\n' !in m.methodVersion
  }

  ghost predicate KnownKinds(m: Message) {
    forall i :: 0 <= i < |m.catalog| ==> IsKind(m.catalog[i].kind)
  }

  lemma MethodReadsBack(m: Message)
    requires OneLine(m) && KnownKinds(m)
    ensures ReadMethod(EncodeMethod(m)) == Some((m.methodName, m.methodVersion, m.artifact, m.catalog))
  {
    var catalog := EncodeCatalog(m.catalog);
    var artifact := Section(SECTION_NAME, m.artifact) + catalog;
    var version := VERSION_NAME + (m.methodVersion + ("\n" + artifact));
    ReadUntilBack("method_name=", m.methodName, '\n', version);
    ReadUntilBack(VERSION_NAME, m.methodVersion, '\n', "\n" + artifact);
    StripBack("\n", artifact);
    SectionReadsBack(SECTION_NAME, m.artifact, catalog);
    CatalogReadsBack(m.catalog);
  }

  lemma OneLineReadsBack(m: Message)
    requires OneLine(m) && KnownKinds(m)
    ensures Decode(Encode(m)) == Some(m)
  {
    var tail := EncodeMethod(m);
    var context := Section("context_utf8_bytes=", m.context) + tail;
    StripBack(USER_HEADER, Section("question_utf8_bytes=", m.question) + context);
    SectionReadsBack("question_utf8_bytes=", m.question, context);
    SectionReadsBack("context_utf8_bytes=", m.context, tail);
    MethodReadsBack(m);
  }

  /** Whatever is decoded has a name and a version without line feed. */
  lemma DecodedIsOneLine(s: string)
    requires Decode(s).Some?
    ensures OneLine(Decode(s).value)
  {
    var body := Strip(s, USER_HEADER);
    var question := ReadSection(body.value, "question_utf8_bytes=");
    var context := ReadSection(question.value.1, "context_utf8_bytes=");
    MethodIsOneLine(context.value.1);
  }

  lemma MethodIsOneLine(s: string)
    requires ReadMethod(s).Some?
    ensures '\n' !in ReadMethod(s).value.0 && '\n' !in ReadMethod(s).value.1
  {
    var name := ReadUntil(s, "method_name=", '\n');
    ReadUntilStops(s, "method_name=", '\n');
    ReadUntilStops(name.value.1, VERSION_NAME, '\n');
  }

  lemma ReadUntilStops(s: string, name: string, stop: char)
    requires ReadUntil(s, name, stop).Some?
    ensures stop !in ReadUntil(s, name, stop).value.0
  {
    BeforeHasNoStop(Strip(s, name).value, stop);
  }

  /** A message is decoded from its octets exactly when no line feed is in the method's name or version. */
  lemma MessageReadsBack(m: Message)
    requires KnownKinds(m)
    ensures Decode(Encode(m)) == Some(m) <==> OneLine(m)
  {
    if OneLine(m) { OneLineReadsBack(m); }
    if Decode(Encode(m)) == Some(m) { DecodedIsOneLine(Encode(m)); }
  }

  /** Among such messages, whatever their sections hold, different ones have different octets. */
  lemma MessagesInjective(m: Message, n: Message)
    requires OneLine(m) && KnownKinds(m) && OneLine(n) && KnownKinds(n) && Encode(m) == Encode(n)
    ensures m == n
  {
    MessageReadsBack(m);
    MessageReadsBack(n);
  }

  /** Whatever is built from a valid descriptor is decoded again, catalog and all. */
  lemma BuiltMessageReadsBack(question: string, context: string, methodName: string, methodVersion: string,
                              artifact: string, handles: seq<Handle>)
    requires ValidDescriptor(methodName, methodVersion)
    requires forall i :: 0 <= i < |handles| ==> handles[i].targets != []
    ensures var m := Message(question, context, methodName, methodVersion, artifact, RowsOf(handles));
            Decode(Encode(m)) == Some(m)
    ensures forall i :: 0 <= i < |handles| ==> Describes(RowsOf(handles)[i], handles[i])
  {
    MessageReadsBack(Message(question, context, methodName, methodVersion, artifact, RowsOf(handles)));
    forall i | 0 <= i < |handles| ensures Describes(RowsOf(handles)[i], handles[i]) { RowDescribes(handles[i]); }
  }

  /** The row has the handle's number, the number of its targets, and says whether they are events, blocks or both. */
  ghost predicate Describes(r: Row, h: Handle) {
    && r.handle == h.handle && r.count == |h.targets|
    && (r.kind == "event_set" <==> forall i :: 0 <= i < |h.targets| ==> h.targets[i].EventTarget?)
    && (r.kind == "block_set" <==> forall i :: 0 <= i < |h.targets| ==> h.targets[i].BlockTarget?)
    && (r.kind == "mixed_set" <==>
          exists i, j :: 0 <= i < |h.targets| && 0 <= j < |h.targets| && h.targets[i].EventTarget?
                         && h.targets[j].BlockTarget?)
  }

  lemma RowDescribes(h: Handle)
    requires h.targets != []
    ensures Describes(RowOf(h).value, h)
  {
    KindsApart();
    KindsAt(h.targets);
    assert h.targets[0].EventTarget? || h.targets[0].BlockTarget?;
  }

  lemma KindsApart()
    ensures "event_set" != "block_set" && "event_set" != "mixed_set" && "block_set" != "mixed_set"
  {
    assert "event_set"[0] != "block_set"[0] && "event_set"[0] != "mixed_set"[0] && "block_set"[0] != "mixed_set"[0];
  }

  lemma KindsAt(ts: seq<Target>)
    ensures HasEvent(ts) <==> exists i :: 0 <= i < |ts| && ts[i].EventTarget?
    ensures HasBlock(ts) <==> exists i :: 0 <= i < |ts| && ts[i].BlockTarget?
  {
    if i :| 0 <= i < |ts| && ts[i].EventTarget? { assert ts[i] in ts; }
    if i :| 0 <= i < |ts| && ts[i].BlockTarget? { assert ts[i] in ts; }
  }

  // ---- Why the descriptor has to be validated elsewhere ---------------------------------------------------

  /** The message does not show where the name ends, once the text between the two fields may occur in them. */
  lemma ConfusableDescriptors(m: Message, first: string, second: string, third: string)
    ensures Encode(m.(methodName := first, methodVersion := second + VERSION_NAME + third))
         == Encode(m.(methodName := first + VERSION_NAME + second, methodVersion := third))
  {
    SplitTwice(first, second, third, "\n" + (Section(SECTION_NAME, m.artifact) + EncodeCatalog(m.catalog)));
  }

  /** Nor does it show where the version ends, once that may hold an artifact header of its own. */
  lemma ConfusableArtifacts(m: Message, shown: string)
    ensures var hidden := shown + (ARTIFACT_NAME + (Decimal(|m.artifact|) + ("\n" + m.artifact)));
            var version := m.methodVersion + (ARTIFACT_NAME + (Decimal(|hidden|) + ("\n" + shown)));
            && Encode(m.(artifact := hidden)) == Encode(m.(methodVersion := version))
            && m.(artifact := hidden) != m.(methodVersion := version) && !OneLine(m.(methodVersion := version))
  {
    var inner := Decimal(|m.artifact|) + ("\n" + m.artifact);
    var hidden := shown + (ARTIFACT_NAME + inner);
    var outer := Decimal(|hidden|) + ("\n" + shown);
    var rest := "\n" + EncodeCatalog(m.catalog);
    LineFeedInside(m.methodVersion, SECTION_NAME + outer);
    HeaderMoves(m.methodVersion, outer, Decimal(|hidden|), shown, inner, rest);
    ArtifactTail(m.methodVersion, hidden, EncodeCatalog(m.catalog));
    ArtifactTail(m.methodVersion + (ARTIFACT_NAME + outer), m.artifact, EncodeCatalog(m.catalog));
    Regroup(Decimal(|m.artifact|), "\n" + m.artifact, rest);
    Regroup(Decimal(|hidden|), "\n" + hidden, rest);
  }

  lemma LineFeedInside(version: string, more: string)
    ensures '\n' in version + ("\n" + more) && version + ("\n" + more) != version
  {
    assert (version + ("\n" + more))[|version|] == '\n';
  }

  /** Version, artifact and catalog as one text. */
  lemma ArtifactTail(version: string, artifact: string, catalog: string)
    ensures version + ("\n" + (Section(SECTION_NAME, artifact) + catalog))
         == version + (ARTIFACT_NAME + ((Decimal(|artifact|) + ("\n" + artifact)) + ("\n" + catalog)))
  {
    SectionText("\n", SECTION_NAME, Decimal(|artifact|), artifact, catalog);
  }

  lemma SectionText(lf: string, name: string, size: string, value: string, rest: string)
    ensures lf + ((name + (size + (lf + (value + lf)))) + rest) == (lf + name) + ((size + (lf + value)) + (lf + rest))
  {
    Regroup(name, size + (lf + (value + lf)), rest);
    Regroup(size, lf + (value + lf), rest);
    Regroup(lf, value + lf, rest);
    Regroup(value, lf, rest);
    Regroup(lf, name, size + (lf + (value + (lf + rest))));
    Regroup(size, lf + value, lf + rest);
    Regroup(lf, value, lf + rest);
  }

  lemma HeaderMoves(version: string, outer: string, size: string, shown: string, inner: string, rest: string)
    requires outer == size + ("\n" + shown)
    ensures version + (ARTIFACT_NAME + ((size + ("\n" + (shown + (ARTIFACT_NAME + inner)))) + rest))
         == (version + (ARTIFACT_NAME + outer)) + (ARTIFACT_NAME + (inner + rest))
  {
  }

  lemma SplitTwice(first: string, second: string, third: string, rest: string)
    ensures first + (VERSION_NAME + ((second + VERSION_NAME + third) + rest))
         == (first + VERSION_NAME + second) + (VERSION_NAME + (third + rest))
  {
    var v := VERSION_NAME;
    Regroup(second + v, third, rest);
    Regroup(second, v, third + rest);
    Regroup(first + v, second, v + (third + rest));
    Regroup(first, v, second + (v + (third + rest)));
  }

  /** The text between the fields does not overlap itself, so two ways to cut lie apart. */
  lemma CutsLieApart(name: string, version: string, longer: string, shorter: string)
    requires name + VERSION_NAME + version == longer + VERSION_NAME + shorter && |name| < |longer|
    ensures Occurs(VERSION_NAME, longer) && Occurs(VERSION_NAME, version)
  {
    var v, s, a, b := VERSION_NAME, name + VERSION_NAME + version, |name|, |longer|;
    assert s[a..a + |v|] == v && s[b..b + |v|] == v;
    assert a + |v| <= b by {
      assert s[b] == v[0] == '\n';
      forall p | a < p < a + |v| ensures s[p] != '\n' { assert s[p] == v[p - a]; }
    }
    assert At(longer, v, a) by { assert longer[a..a + |v|] == s[a..a + |v|]; }
    var j := b - (a + |v|);
    assert version == s[a + |v|..];
    assert At(version, v, j) by { assert version[j..j + |v|] == s[b..b + |v|]; }
  }

  lemma SameAfter(a: string, x: string, y: string)
    requires a + x == a + y
    ensures x == y
  {
    SameCut(a, x, a, y);
  }

  /** Equal messages that differ in the descriptor alone agree on the descriptor's text. */
  lemma SameDescriptorText(m: Message, name: string, version: string)
    requires Encode(m.(methodName := name, methodVersion := version)) == Encode(m)
    ensures name + VERSION_NAME + version == m.methodName + VERSION_NAME + m.methodVersion
  {
    var other := m.(methodName := name, methodVersion := version);
    var question, context := Section("question_utf8_bytes=", m.question), Section("context_utf8_bytes=", m.context);
    SameAfter(USER_HEADER, question + (context + EncodeMethod(other)), question + (context + EncodeMethod(m)));
    SameAfter(question, context + EncodeMethod(other), context + EncodeMethod(m));
    SameAfter(context, EncodeMethod(other), EncodeMethod(m));
    var rest := "\n" + (Section(SECTION_NAME, m.artifact) + EncodeCatalog(m.catalog));
    SameAfter("method_name=", name + (VERSION_NAME + (version + rest)),
              m.methodName + (VERSION_NAME + (m.methodVersion + rest)));
    GroupDescriptor(name, version, rest);
    GroupDescriptor(m.methodName, m.methodVersion, rest);
    SameCut(name + VERSION_NAME + version, rest, m.methodName + VERSION_NAME + m.methodVersion, rest);
  }

  lemma GroupDescriptor(name: string, version: string, rest: string)
    ensures name + (VERSION_NAME + (version + rest)) == (name + VERSION_NAME + version) + rest
  {
    Regroup(name + VERSION_NAME, version, rest);
    Regroup(name, VERSION_NAME, version + rest);
  }

  ghost predicate HasDouble(m: Message) {
    exists name, version :: (name, version) != (m.methodName, m.methodVersion)
                            && Encode(m.(methodName := name, methodVersion := version)) == Encode(m)
  }

  /** A message shares its octets with one that differs in name and version alone exactly when that text occurs
      in them. */
  lemma DescriptorDoubleExactly(m: Message)
    ensures HasDouble(m) <==> Occurs(VERSION_NAME, m.methodName) || Occurs(VERSION_NAME, m.methodVersion)
  {
    if HasDouble(m) {
      var name, version :| (name, version) != (m.methodName, m.methodVersion)
                           && Encode(m.(methodName := name, methodVersion := version)) == Encode(m);
      SameDescriptorText(m, name, version);
      DifferentCut(name, version, m.methodName, m.methodVersion);
    }
    if Occurs(VERSION_NAME, m.methodName) { NestedNameDoubles(m); }
    if Occurs(VERSION_NAME, m.methodVersion) { NestedVersionDoubles(m); }
  }

  lemma DifferentCut(name: string, version: string, name': string, version': string)
    requires name + VERSION_NAME + version == name' + VERSION_NAME + version' && (name, version) != (name', version')
    ensures Occurs(VERSION_NAME, name') || Occurs(VERSION_NAME, version')
  {
    if |name| < |name'| {
      CutsLieApart(name, version, name', version');
    } else if |name'| < |name| {
      CutsLieApart(name', version', name, version);
    } else {
      SameCut(name + VERSION_NAME, version, name' + VERSION_NAME, version');
      SameCut(name, VERSION_NAME, name', VERSION_NAME);
    }
  }

  lemma NestedNameDoubles(m: Message)
    requires Occurs(VERSION_NAME, m.methodName)
    ensures HasDouble(m)
  {
    var v, n := VERSION_NAME, m.methodName;
    var before, after := Surroundings(v, n);
    ConfusableDescriptors(m, before, after, m.methodVersion);
    assert m.(methodName := n, methodVersion := m.methodVersion) == m;
  }

  lemma NestedVersionDoubles(m: Message)
    requires Occurs(VERSION_NAME, m.methodVersion)
    ensures HasDouble(m)
  {
    var v, n := VERSION_NAME, m.methodVersion;
    var before, after := Surroundings(v, n);
    ConfusableDescriptors(m, m.methodName, before, after);
    assert m.(methodName := m.methodName, methodVersion := n) == m;
  }
}
