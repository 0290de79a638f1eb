/**
 * Three ways to split text into lines that have to agree: the exact records of the hosted-ranking benchmark
 * (hosted_ranking_qualification.rs), the line counts of the legacy Drain adapter (legacy_drain.rs) and the payloads of
 * the hermetic Drain fixture (hermetic_drain_fixture.rs).
 */
module LineSplitters {
  import opened Prelude
  import opened Octets
  import opened Counting

  const MAX_INPUT_BYTES: nat := 4 * 1024 * 1024
  const MAX_RECORDS: nat := 4096

  function Concat(pieces: seq<string>): string {
    if pieces == [] then "" else pieces[0] + Concat(pieces[1..])
  }

  predicate IsLf(c: char) {
    c == '\n'
  }

  // ---- Exact records --------------------------------------------------------------------------------------

  /** Pieces that each end at a line feed; `open` is what has been read since the last one. */
  function RecordsFrom(open: string, rest: string): (records: seq<string>)
    decreases |rest|
  {
    if rest == [] then (if open == [] then [] else [open])
    else if rest[0] == '\n' then [open + ['\n']] + RecordsFrom("", rest[1..])
    else RecordsFrom(open + [rest[0]], rest[1..])
  }

  function Records(input: string): seq<string> {
    RecordsFrom("", input)
  }

  /** `exact_records_v1`. */
  method ExactRecords(input: string) returns (records: seq<string>)
    ensures records == Records(input)
  {
    records := [];
    var start := 0;
    for index := 0 to |input|
      invariant 0 <= start <= index
      invariant Records(input) == records + RecordsFrom(input[start..index], input[index..])
    {
      RecordsStep(records, input, start, index);
      if input[index] == '\n' {
        records := records + [input[start..index + 1]];
        start := index + 1;
      }
    }
    assert input[|input|..] == "" && input[start..|input|] == input[start..];
    if start < |input| {
      records := records + [input[start..]];
    }
  }

  lemma RecordsStep(records: seq<string>, input: string, start: nat, index: nat)
    requires start <= index < |input|
    ensures records + RecordsFrom(input[start..index], input[index..])
         == if input[index] == '\n'
            then records + [input[start..index + 1]] + RecordsFrom(input[index + 1..index + 1], input[index + 1..])
            else records + RecordsFrom(input[start..index + 1], input[index + 1..])
  {
    assert input[index..][0] == input[index] && input[index..][1..] == input[index + 1..];
    assert input[start..index + 1] == input[start..index] + [input[index]];
    assert input[index + 1..index + 1] == "";
    if input[index] == '\n' {
      Regroup(records, [input[start..index + 1]], RecordsFrom("", input[index + 1..]));
    }
  }

  lemma {:induction false} RecordsFromConcat(open: string, rest: string)
    ensures Concat(RecordsFrom(open, rest)) == open + rest
    decreases |rest|
  {
    if rest == [] {
      if open != [] { assert [open][1..] == []; }
    } else if rest[0] == '\n' {
      RecordsFromConcat("", rest[1..]);
      ConcatHead(open + ['\n'], RecordsFrom("", rest[1..]));
      assert open + rest == (open + ['\n']) + rest[1..];
    } else {
      RecordsFromConcat(open + [rest[0]], rest[1..]);
      assert open + rest == (open + [rest[0]]) + rest[1..];
    }
  }

  lemma ConcatHead(piece: string, pieces: seq<string>)
    ensures Concat([piece] + pieces) == piece + Concat(pieces)
  {
    assert ([piece] + pieces)[1..] == pieces;
  }

  /** Every octet of the input is in exactly one record, in order. */
  lemma RecordsConcatenateBack(input: string)
    ensures Concat(Records(input)) == input
  {
    RecordsFromConcat("", input);
  }

  predicate UnterminatedTail(input: string) {
    input != "" && input[|input| - 1] != '\n'
  }

  lemma {:induction false} RecordsFromCount(open: string, rest: string)
    requires '\n' !in open
    ensures |RecordsFrom(open, rest)| == Count(IsLf, rest) + if UnterminatedTail(open + rest) then 1 else 0
    decreases |rest|
  {
    if rest == [] {
      assert open + rest == open;
    } else if rest[0] == '\n' {
      RecordsFromCount("", rest[1..]);
      assert "" + rest[1..] == rest[1..];
      TailAfterLf(open, rest);
    } else {
      RecordsFromCount(open + [rest[0]], rest[1..]);
      assert open + rest == (open + [rest[0]]) + rest[1..];
    }
  }

  lemma TailAfterLf(open: string, rest: string)
    requires rest != [] && rest[0] == '\n'
    ensures UnterminatedTail(open + rest) <==> UnterminatedTail(rest[1..])
  {
    if |rest| > 1 { assert (open + rest)[|open + rest| - 1] == rest[1..][|rest| - 2]; }
  }

  /** There are as many records as line feeds, and one more for an unterminated tail. */
  lemma RecordsCount(input: string)
    ensures |Records(input)| == Count(IsLf, input) + if UnterminatedTail(input) then 1 else 0
  {
    RecordsFromCount("", input);
    assert "" + input == input;
  }

  // ---- Inclusive splitting --------------------------------------------------------------------------------

  /** Where the first line feed is, or the end of the text. */
  function FirstLf(s: string): (k: nat)
    ensures k <= |s| && (k < |s| ==> s[k] == '\n') && '\n' !in s[..k]
  {
    if s == [] || s[0] == '\n' then 0
    else
      var k := FirstLf(s[1..]);
      assert s[..k + 1] == [s[0]] + s[1..][..k];
      k + 1
  }

  /** `split_inclusive('\n')`: cut after each line feed. */
  function SplitInclusive(s: string): (pieces: seq<string>) {
    if s == [] then []
    else
      var k := FirstLf(s);
      if k == |s| then [s] else [s[..k + 1]] + SplitInclusive(s[k + 1..])
  }

  lemma {:induction false} ReadOn(open: string, rest: string, k: nat)
    requires k <= |rest| && '\n' !in rest[..k]
    ensures RecordsFrom(open, rest) == RecordsFrom(open + rest[..k], rest[k..])
    decreases k
  {
    if k == 0 {
      assert open + rest[..0] == open;
    } else {
      assert rest[0] == rest[..k][0] && rest[..k][0] in rest[..k];
      assert rest[1..][..k - 1] == rest[..k][1..] && rest[1..][k - 1..] == rest[k..];
      ReadOn(open + [rest[0]], rest[1..], k - 1);
      assert open + [rest[0]] + rest[1..][..k - 1] == open + rest[..k];
    }
  }

  /** Collecting pieces octet by octet and cutting at the line feeds give the same records. */
  lemma {:induction false} SplitInclusiveIsRecords(s: string)
    ensures SplitInclusive(s) == Records(s)
    decreases |s|
  {
    if s != [] {
      var k := FirstLf(s);
      ReadOn("", s, k);
      assert "" + s[..k] == s[..k];
      if k == |s| {
        assert s[..k] == s && s[k..] == [];
      } else {
        assert s[k..][0] == '\n' && s[k..][1..] == s[k + 1..] && s[..k] + ['\n'] == s[..k + 1];
        SplitInclusiveIsRecords(s[k + 1..]);
      }
    }
  }

  /** A line feed can only be the last octet of a record, and no record is empty. */
  ghost predicate IsRecord(record: string) {
    record != "" && '\n' !in record[..|record| - 1]
  }

  predicate IsTerminated(record: string) {
    record != "" && record[|record| - 1] == '\n'
  }

  /** Records, of which only the last may lack its line feed. */
  ghost predicate AreRecords(pieces: seq<string>) {
    && (forall i :: 0 <= i < |pieces| ==> IsRecord(pieces[i]))
    && forall i :: 0 <= i < |pieces| - 1 ==> IsTerminated(pieces[i])
  }

  lemma {:induction false} PiecesAreRecords(s: string)
    ensures AreRecords(SplitInclusive(s))
    decreases |s|
  {
    if s != [] {
      var k := FirstLf(s);
      if k == |s| {
        assert s[..|s| - 1] == s[..k][..|s| - 1];
      } else {
        assert s[..k + 1][..k] == s[..k];
        PiecesAreRecords(s[k + 1..]);
      }
    }
  }

  lemma FirstLfOfRecord(record: string, rest: string)
    requires IsRecord(record) && (IsTerminated(record) || rest == "")
    ensures var s := record + rest; s != "" && FirstLf(s) == if IsTerminated(record) then |record| - 1 else |record|
  {
    var s, k, n := record + rest, FirstLf(record + rest), |record| - 1;
    assert s[n] == record[n] && s[..n] == record[..n];
    forall i | 0 <= i < n ensures s[i] != '\n' { assert s[i] == record[..n][i]; }
    forall i | 0 <= i < k ensures s[i] != '\n' { assert s[i] == s[..k][i]; }
  }

  lemma {:induction false} RecordsAreFound(pieces: seq<string>)
    requires AreRecords(pieces)
    ensures SplitInclusive(Concat(pieces)) == pieces
  {
    if pieces != [] {
      var record, rest := pieces[0], Concat(pieces[1..]);
      if |pieces| == 1 { assert pieces[1..] == []; } else { assert IsTerminated(record); }
      FirstLfOfRecord(record, rest);
      RecordsAreFound(pieces[1..]);
      if !IsTerminated(record) {
        assert record + rest == record && pieces == [record];
      } else {
        assert (record + rest)[..|record|] == record && (record + rest)[|record|..] == rest;
      }
      assert pieces == [record] + pieces[1..];
    }
  }

  /** The records of an input are the only list of records that concatenates to it. */
  lemma RecordsExactly(input: string, pieces: seq<string>)
    ensures pieces == Records(input) <==> AreRecords(pieces) && Concat(pieces) == input
  {
    SplitInclusiveIsRecords(input);
    PiecesAreRecords(input);
    RecordsConcatenateBack(input);
    if AreRecords(pieces) { RecordsAreFound(pieces); }
  }

  // ---- Lines of the legacy adapter ------------------------------------------------------------------------

  /** A terminated line loses its line feed and one carriage return before it; an unterminated one loses nothing. */
  function LibraryLine(record: string): string {
    var n := |record|;
    if n == 0 || record[n - 1] != '\n' then record
    else if n >= 2 && record[n - 2] == '\r' then record[..n - 2]
    else record[..n - 1]
  }

  /** `str::lines`, reading on from the lines read so far; it knows nothing of records. */
  function LinesFrom(open: string, rest: string): (lines: seq<string>)
    decreases |rest|
  {
    if rest == [] then (if open == [] then [] else [open])
    else if rest[0] == '\n' then
      [if open != [] && open[|open| - 1] == '\r' then open[..|open| - 1] else open] + LinesFrom("", rest[1..])
    else LinesFrom(open + [rest[0]], rest[1..])
  }

  function Lines(text: string): seq<string> {
    LinesFrom("", text)
  }

  /** ASCII white space, as `trim` sees it. */
  predicate IsSpace(c: char) {
    c == ' ' || '\t' <= c <= '\r'
  }

  /** `line.trim().is_empty()`. */
  predicate IsBlank(line: string) {
    forall i :: 0 <= i < |line| ==> IsSpace(line[i])
  }

  predicate NotBlank(line: string) {
    !IsBlank(line)
  }

  function CountCrLf(input: string): nat {
    if |input| < 2 then 0 else (if input[0] == '\r' && input[1] == '\n' then 1 else 0) + CountCrLf(input[1..])
  }

  datatype Assessment = Assessment(bytes: nat, logicalLines: nat, retained: nat, dropped: nat, lfs: nat, crlfs: nat,
                                   finalLf: bool)

  /** `assess_input` on text, where `None` stands for an accounting overflow. */
  function AssessInput(input: string): (a: Option<Assessment>) {
    var lines := |Lines(input)|;
    var retained := Count(NotBlank, Lines(input));
    if lines < retained then None
    else Some(Assessment(|input|, lines, retained, lines - retained, Count(IsLf, input), CountCrLf(input),
                         input != "" && input[|input| - 1] == '\n'))
  }

  lemma {:induction false} CrLfAtMostLf(input: string)
    ensures CountCrLf(input) <= Count(IsLf, input)
    ensures input != "" && input[0] == '\n' ==> CountCrLf(input) < Count(IsLf, input)
  {
    if |input| >= 2 { CrLfAtMostLf(input[1..]); }
  }

  lemma {:induction false} LinesFromRecords(open: string, rest: string)
    requires '\n' !in open
    ensures |LinesFrom(open, rest)| == |RecordsFrom(open, rest)|
    ensures var lines, records := LinesFrom(open, rest), RecordsFrom(open, rest);
            forall k :: 0 <= k < |lines| ==> lines[k] == LibraryLine(records[k])
    decreases |rest|
  {
    if rest != [] {
      if rest[0] == '\n' {
        LinesFromRecords("", rest[1..]);
        LineOfRecord(open);
      } else {
        LinesFromRecords(open + [rest[0]], rest[1..]);
      }
    } else if open != [] {
      assert open[|open| - 1] in open;
    }
  }

  lemma LineOfRecord(open: string)
    ensures LibraryLine(open + ['\n']) == if open != [] && open[|open| - 1] == '\r' then open[..|open| - 1] else open
  {
    var record := open + ['\n'];
    assert record[..|open|] == open;
    if open != [] { assert record[..|open| - 1] == open[..|open| - 1]; }
  }

  /** The adapter's counts agree with the exact records, balance, and its checked subtraction never fails. */
  lemma AssessmentAgrees(input: string)
    ensures AssessInput(input).Some?
    ensures var a := AssessInput(input).value;
            && a.logicalLines == |Records(input)| == a.lfs + (if UnterminatedTail(input) then 1 else 0)
            && a.crlfs <= a.lfs && a.retained + a.dropped == a.logicalLines
            && (a.finalLf <==> input != "" && !UnterminatedTail(input))
  {
    LinesFromRecords("", input);
    RecordsCount(input);
    CrLfAtMostLf(input);
  }

  // ---- Payloads of the fixture ----------------------------------------------------------------------------

  function StripSuffix(s: string, c: char): Option<string> {
    if s != [] && s[|s| - 1] == c then Some(s[..|s| - 1]) else None
  }

  function Or(o: Option<string>, s: string): string {
    if o.Some? then o.value else s
  }

  /** One payload of `source_payloads`: the carriage return goes even where there was no line feed. */
  function Payload(record: string): string {
    var line := Or(StripSuffix(record, '\n'), record);
    Or(StripSuffix(line, '\r'), line)
  }

  /** `source_payloads`. */
  function Payloads(input: string): (ps: seq<string>) {
    Each(Payload, SplitInclusive(input))
  }

  datatype FixtureError = InputError | LimitError

  /** Every payload that is not blank parses. */
  ghost predicate AllParse(parses: string -> bool, payloads: seq<string>) {
    forall k :: 0 <= k < |payloads| && NotBlank(payloads[k]) ==> parses(payloads[k])
  }

  /** The fixture up to its `original_count`; `parses` is the pinned line parser's verdict. */
  method Fixture(parses: string -> bool, input: string) returns (r: Result<nat, FixtureError>)
    ensures r.Ok? <==> |input| <= MAX_INPUT_BYTES && IsAscii(input) && AllParse(parses, Payloads(input))
                       && 1 <= Count(NotBlank, Payloads(input)) <= MAX_RECORDS
    ensures r.Ok? ==> r.value == Count(NotBlank, Payloads(input))
    ensures r.Err? ==> r.error == if |input| > MAX_INPUT_BYTES then LimitError
                                  else if IsAscii(input) && AllParse(parses, Payloads(input)) then LimitError
                                  else InputError
    ensures r.Ok? ==> AssessInput(input).Some? && r.value == AssessInput(input).value.retained
  {
    if |input| > MAX_INPUT_BYTES { return Err(LimitError); }
    if !IsAscii(input) { return Err(InputError); }
    var payloads := Payloads(input);
    var samples := 0;
    for i := 0 to |payloads|
      invariant samples + Count(NotBlank, payloads[i..]) == Count(NotBlank, payloads)
      invariant forall k :: 0 <= k < i && NotBlank(payloads[k]) ==> parses(payloads[k])
    {
      assert payloads[i..][0] == payloads[i] && payloads[i..][1..] == payloads[i + 1..];
      if NotBlank(payloads[i]) {
        if !parses(payloads[i]) { return Err(InputError); }
        samples := samples + 1;
      }
    }
    if samples == 0 || samples > MAX_RECORDS { return Err(LimitError); }
    SplittersAgree(input);
    return Ok(samples);
  }

  lemma BlankWithoutLast(s: string)
    requires s != "" && IsSpace(s[|s| - 1])
    ensures IsBlank(s) <==> IsBlank(s[..|s| - 1])
  {
  }

  /** However a line's end is stripped, it is blank or it is not. */
  lemma SameBlankness(record: string)
    ensures IsBlank(LibraryLine(record)) <==> IsBlank(Payload(record))
  {
    var line := Or(StripSuffix(record, '\n'), record);
    if line != "" && line[|line| - 1] == '\r' { BlankWithoutLast(line); }
    if record != "" && record[|record| - 1] == '\n' {
      var n := |record|;
      assert n >= 2 ==> line[|line| - 1] == record[n - 2];
      assert n >= 2 ==> line[..|line| - 1] == record[..n - 2];
    }
  }

  lemma {:induction false} CountsAgree(p: string -> bool, s: seq<string>, t: seq<string>)
    requires |s| == |t| && forall k :: 0 <= k < |s| ==> p(s[k]) == p(t[k])
    ensures Count(p, s) == Count(p, t)
  {
    if s != [] { CountsAgree(p, s[1..], t[1..]); }
  }

  /** The fixture's count of non-blank payloads is the adapter's count of non-blank lines. */
  lemma SplittersAgree(input: string)
    ensures AssessInput(input).Some? && AssessInput(input).value.retained == Count(NotBlank, Payloads(input))
  {
    AssessmentAgrees(input);
    LinesFromRecords("", input);
    SplitInclusiveIsRecords(input);
    var lines, payloads := Lines(input), Payloads(input);
    forall k | 0 <= k < |lines| ensures NotBlank(lines[k]) == NotBlank(payloads[k]) {
      SameBlankness(Records(input)[k]);
    }
    CountsAgree(NotBlank, lines, payloads);
  }

  // ---- The counts as numbers of places --------------------------------------------------------------------

  ghost function LfPlaces(input: string): set<nat> {
    set i: nat | i < |input| && input[i] as int == 10
  }

  ghost function CrLfPlaces(input: string): set<nat> {
    set i: nat | i < |input| && IsCrLf(input, i)
  }

  /** A carriage return, and a line feed right after it. */
  ghost predicate IsCrLf(input: string, i: nat) {
    i + 1 < |input| && input[i] as int == 13 && input[i + 1] as int == 10
  }

  /** Some character is neither a space nor one of the controls 9 to 13. */
  ghost predicate HasInk(s: string) {
    exists i :: 0 <= i < |s| && s[i] as int != 32 && !(9 <= s[i] as int <= 13)
  }

  ghost function InkedRecords(records: seq<string>): set<nat> {
    set k: nat | k < |records| && HasInk(records[k])
  }

  lemma LfsExactly(input: string)
    ensures Count(IsLf, input) == |LfPlaces(input)|
  {
    CountIsWhere(IsLf, input);
    assert Where(IsLf, input) == LfPlaces(input);
  }

  /** The pairs from the `k`-th character on. */
  ghost function CrLfFrom(input: string, k: nat): set<nat> {
    set i: nat | k <= i < |input| && IsCrLf(input, i)
  }

  lemma {:induction false} CrLfsFrom(input: string, k: nat)
    requires k <= |input|
    ensures CountCrLf(input[k..]) == |CrLfFrom(input, k)|
    decreases |input| - k
  {
    if |input| - k < 2 {
      assert CrLfFrom(input, k) == {};
    } else {
      CrLfsFrom(input, k + 1);
      assert input[k..][1..] == input[k + 1..];
      if input[k] == '\r' && input[k + 1] == '\n' {
        assert CrLfFrom(input, k) == CrLfFrom(input, k + 1) + {k};
      } else {
        assert CrLfFrom(input, k) == CrLfFrom(input, k + 1);
      }
    }
  }

  lemma CrLfsExactly(input: string)
    ensures CountCrLf(input) == |CrLfPlaces(input)|
  {
    CrLfsFrom(input, 0);
    assert input[0..] == input && CrLfFrom(input, 0) == CrLfPlaces(input);
  }

  lemma InkExactly(s: string)
    ensures NotBlank(s) <==> HasInk(s)
  {
    if HasInk(s) {
      var i :| 0 <= i < |s| && s[i] as int != 32 && !(9 <= s[i] as int <= 13);
      assert !IsSpace(s[i]);
    }
    if NotBlank(s) {
      var i :| 0 <= i < |s| && !IsSpace(s[i]);
      assert s[i] as int != 32 && !(9 <= s[i] as int <= 13);
    }
  }

  /** Stripping the end of a line does not change whether it is blank. */
  lemma LineIsAsBlank(record: string)
    ensures NotBlank(LibraryLine(record)) <==> NotBlank(record)
  {
    var n := |record|;
    if n > 0 && record[n - 1] == '\n' {
      BlankWithoutLast(record);
      if n >= 2 && record[n - 2] == '\r' {
        BlankWithoutLast(record[..n - 1]);
        assert record[..n - 1][..n - 2] == record[..n - 2];
      }
    }
  }

  lemma RetainedExactly(input: string)
    ensures Count(NotBlank, Lines(input)) == |InkedRecords(Records(input))|
  {
    var lines, records := Lines(input), Records(input);
    LinesFromRecords("", input);
    CountIsWhere(NotBlank, lines);
    forall k: nat | k < |lines| ensures NotBlank(lines[k]) <==> HasInk(records[k]) {
      LineIsAsBlank(records[k]);
      InkExactly(records[k]);
    }
    assert Where(NotBlank, lines) == InkedRecords(records);
  }

  /** Every number of the assessment is a number of places in the input. */
  lemma AssessmentExactly(input: string)
    ensures AssessInput(input).Some?
    ensures var a := AssessInput(input).value;
            && a.bytes == |input| && a.lfs == |LfPlaces(input)| && a.crlfs == |CrLfPlaces(input)|
            && a.retained == |InkedRecords(Records(input))|
            && a.logicalLines == |Records(input)| && a.dropped == |Records(input)| - |InkedRecords(Records(input))|
            && (a.finalLf <==> |input| - 1 in LfPlaces(input))
  {
    AssessmentAgrees(input);
    LfsExactly(input);
    CrLfsExactly(input);
    RetainedExactly(input);
  }

  /** A payload is its record without the line feed and then without one carriage return, where they end it. */
  lemma PayloadExactly(record: string)
    ensures Ends(record, "\r\n") ==> record == Payload(record) + "\r\n"
    ensures Ends(record, "\n") && !Ends(record, "\r\n") ==> record == Payload(record) + "\n"
    ensures Ends(record, "\r") ==> record == Payload(record) + "\r"
    ensures !Ends(record, "\n") && !Ends(record, "\r") ==> record == Payload(record)
  {
    var n := |record|;
    if n > 0 && record[n - 1] == '\n' {
      assert record == record[..n - 1] + "\n";
      if n > 1 && record[n - 2] == '\r' {
        assert record[..n - 1][..n - 2] == record[..n - 2];
        assert record == record[..n - 2] + "\r\n";
      }
    } else if n > 0 && record[n - 1] == '\r' {
      assert record == record[..n - 1] + "\r";
    } else {
      assert record == record + "";
    }
  }

  ghost predicate Ends(s: string, end: string) {
    |end| <= |s| && s[|s| - |end|..] == end
  }
}
