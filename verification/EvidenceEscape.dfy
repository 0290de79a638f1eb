/** The canonical one-line encoding of evidence octets (evidentrail-evidence/src/lib.rs). */
module EvidenceEscape {
  import opened Prelude
  import opened Octets

  datatype EscapeError = TruncatedEscape | InvalidEscape | InvalidDigit | NonCanonicalByte

  predicate IsPrintable(c: char) {
    ' ' <= c <= '~'
  }

  /** `push_escaped_byte`. */
  function EscapeOctet(c: char): (e: string) {
    if c == '\\' then "\\\\"
    else if c == '\n' then "\\n"
    else if c == '\r' then "\\r"
    else if c == '\t' then "\\t"
    else if IsPrintable(c) then [c]
    else ['\\', 'x', HexDigit(c as int / 16 % 16), HexDigit(c as int % 16)]
  }

  /** `escape_evidence_bytes`. */
  function Escape(bytes: string): (e: string) {
    if bytes == [] then "" else EscapeOctet(bytes[0]) + Escape(bytes[1..])
  }

  /** An encoded line is printable ASCII throughout, so it holds no line feed. */
  lemma {:induction false} EscapeIsPrintable(bytes: string)
    ensures forall c :: c in Escape(bytes) ==> IsPrintable(c)
  {
    if bytes != [] {
      EscapeIsPrintable(bytes[1..]);
      assert forall c :: c in EscapeOctet(bytes[0]) ==> IsPrintable(c);
    }
  }

  /** One turn of the decoder's loop: the octet at the front and how many characters it took. */
  function DecodeFront(s: string): (r: Result<(char, nat), EscapeError>)
    requires s != []
    ensures r.Ok? ==> 1 <= r.value.1 <= |s|
  {
    if s[0] == '\\' then
      if |s| < 2 then Err(TruncatedEscape)
      else if s[1] == '\\' then Ok(('\\', 2))
      else if s[1] == 'n' then Ok(('\n', 2))
      else if s[1] == 'r' then Ok(('\r', 2))
      else if s[1] == 't' then Ok(('\t', 2))
      else if s[1] == 'x' then
        if |s| < 4 then Err(TruncatedEscape)
        else
          var high, low := HexValue(s[2]), HexValue(s[3]);
          if high.None? || low.None? then Err(InvalidDigit)
          else
            var c := (16 * high.value + low.value) as char;
            if c == '\\' || c == '\n' || c == '\r' || c == '\t' || IsPrintable(c) then Err(NonCanonicalByte)
            else Ok((c, 4))
      else Err(InvalidEscape)
    else if IsPrintable(s[0]) then Ok((s[0], 1))
    else Err(NonCanonicalByte)
  }

  function Push(c: char, r: Result<string, EscapeError>): Result<string, EscapeError> {
    if r.Err? then r else Ok([c] + r.value)
  }

  /** `unescape_evidence_bytes` as a function. */
  function Unescape(s: string): (r: Result<string, EscapeError>)
    decreases |s|
  {
    if s == [] then Ok("")
    else if DecodeFront(s).Err? then Err(DecodeFront(s).error)
    else Push(DecodeFront(s).value.0, Unescape(s[DecodeFront(s).value.1..]))
  }

  function After(decoded: string, r: Result<string, EscapeError>): Result<string, EscapeError> {
    if r.Err? then r else Ok(decoded + r.value)
  }

  lemma AfterPush(decoded: string, c: char, r: Result<string, EscapeError>)
    ensures After(decoded, Push(c, r)) == After(decoded + [c], r)
  {
    assert r.Ok? ==> decoded + ([c] + r.value) == (decoded + [c]) + r.value;
  }

  lemma AfterNothing(r: Result<string, EscapeError>)
    ensures After("", r) == r
  {
    assert r.Ok? ==> "" + r.value == r.value;
  }

  /** `unescape_evidence_bytes`: the loop over an offset. */
  method UnescapeBytes(encoded: string) returns (r: Result<string, EscapeError>)
    ensures r == Unescape(encoded)
  {
    var decoded := "";
    var offset := 0;
    AfterNothing(Unescape(encoded));
    assert encoded[0..] == encoded;
    while offset < |encoded|
      invariant 0 <= offset <= |encoded|
      invariant Unescape(encoded) == After(decoded, Unescape(encoded[offset..]))
    {
      var front := DecodeFront(encoded[offset..]);
      if front.Err? { return Err(front.error); }
      var (c, n) := front.value;
      assert encoded[offset..][n..] == encoded[offset + n..];
      AfterPush(decoded, c, Unescape(encoded[offset + n..]));
      decoded := decoded + [c];
      offset := offset + n;
    }
    assert decoded + "" == decoded;
    return Ok(decoded);
  }

  lemma FrontOfEscaped(c: char, rest: string)
    requires c as int < 256
    ensures DecodeFront(EscapeOctet(c) + rest) == Ok((c, |EscapeOctet(c)|))
  {
  }

  lemma EscapedFront(s: string)
    requires s != [] && DecodeFront(s).Ok?
    ensures var (c, n) := DecodeFront(s).value; EscapeOctet(c) == s[..n]
  {
    if s[0] == '\\' && s[1] == 'x' {
      HexDigitOfValue(s[2]);
      HexDigitOfValue(s[3]);
    }
  }

  /** Decoding undoes encoding, whatever the octets. */
  lemma {:induction false} UnescapeEscape(bytes: string)
    requires IsOctets(bytes)
    ensures Unescape(Escape(bytes)) == Ok(bytes)
  {
    if bytes != [] {
      var front, rest := EscapeOctet(bytes[0]), Escape(bytes[1..]);
      FrontOfEscaped(bytes[0], rest);
      assert (front + rest)[|front|..] == rest && bytes == [bytes[0]] + bytes[1..];
      UnescapeEscape(bytes[1..]);
    }
  }

  lemma EscapeCons(c: char, rest: string)
    ensures Escape([c] + rest) == EscapeOctet(c) + Escape(rest)
  {
    assert ([c] + rest)[1..] == rest;
  }

  /** Each decodable line is the encoding of what it decodes to: the encoding is canonical. */
  lemma {:induction false} EscapeUnescape(s: string)
    requires Unescape(s).Ok?
    ensures Escape(Unescape(s).value) == s
    decreases |s|
  {
    if s != [] {
      var (c, n) := DecodeFront(s).value;
      EscapeUnescape(s[n..]);
      EscapedBack(s, c, n, Unescape(s[n..]).value);
    }
  }

  lemma EscapedBack(s: string, c: char, n: nat, rest: string)
    requires s != [] && DecodeFront(s) == Ok((c, n)) && n <= |s| && Escape(rest) == s[n..]
    ensures Escape([c] + rest) == s
  {
    EscapedFront(s);
    EscapeCons(c, rest);
    assert s == s[..n] + s[n..];
  }

  // ---- The code table, and what the errors mean -----------------------------------------------------------

  const DIGITS := "0123456789abcdef"

  /** The code of each octet. */
  lemma CodeTable(c: char)
    requires c as int < 256
    ensures Escape("\\") == "\\\\" && Escape("\n") == "\\n" && Escape("\r") == "\\r" && Escape("\t") == "\\t"
    ensures 32 <= c as int <= 126 && c != '\\' ==> Escape([c]) == [c]
    ensures (c as int < 32 || 126 < c as int) && c !in "\n\r\t" ==>
      Escape([c]) == "\\x" + [DIGITS[c as int / 16], DIGITS[c as int % 16]]
  {
    EscapeOne('\\');
    EscapeOne('\n');
    EscapeOne('\r');
    EscapeOne('\t');
    EscapeOne(c);
    DigitInTable(c as int / 16);
    DigitInTable(c as int % 16);
  }

  lemma EscapeOne(c: char)
    ensures Escape([c]) == EscapeOctet(c)
  {
    assert [c][1..] == [] && EscapeOctet(c) + "" == EscapeOctet(c);
  }

  lemma DigitInTable(n: nat)
    requires n < 16
    ensures HexDigit(n) == DIGITS[n]
  {
  }

  /** A list of octets is encoded octet by octet. */
  lemma {:induction false} EscapeApart(a: string, b: string)
    ensures Escape(a + b) == Escape(a) + Escape(b)
  {
    if a == [] {
      assert a + b == b;
    } else {
      assert (a + b)[0] == a[0] && (a + b)[1..] == a[1..] + b;
      EscapeApart(a[1..], b);
      Regroup(EscapeOctet(a[0]), Escape(a[1..]), Escape(b));
    }
  }

  /** What is wrong with the text from its front on. */
  ghost predicate Fault(s: string, error: EscapeError) {
    match error
    case TruncatedEscape => s == "\\" || ("\\x" <= s && |s| < 4)
    case InvalidEscape => |s| >= 2 && s[0] == '\\' && s[1] !in "\\nrtx"
    case InvalidDigit => |s| >= 4 && "\\x" <= s && (s[2] !in DIGITS || s[3] !in DIGITS)
    case NonCanonicalByte =>
      || (|s| >= 1 && !(32 <= s[0] as int <= 126))
      || (|s| >= 4 && "\\x" <= s && s[2] in DIGITS && s[3] in DIGITS && Needless(s[2], s[3]))
  }

  /** The octet with these digits has a shorter code. */
  ghost predicate Needless(a: char, b: char) {
    exists high: nat, low: nat :: high < 16 && low < 16 && DIGITS[high] == a && DIGITS[low] == b
      && (32 <= 16 * high + low <= 126 || 16 * high + low in {9, 10, 13})
  }

  lemma DigitsAreHex(c: char)
    ensures c in DIGITS <==> HexValue(c).Some?
  {
    if HexValue(c).Some? {
      HexDigitOfValue(c);
      DigitInTable(HexValue(c).value);
    }
  }

  lemma FrontFault(s: string)
    requires s != [] && DecodeFront(s).Err?
    ensures Fault(s, DecodeFront(s).error)
  {
    if |s| >= 4 && s[0] == '\\' && s[1] == 'x' {
      assert "\\x" <= s;
      DigitsAreHex(s[2]);
      DigitsAreHex(s[3]);
      if HexValue(s[2]).Some? && HexValue(s[3]).Some? { NeedlessFront(s[2], s[3]); }
    }
  }

  lemma NeedlessFront(a: char, b: char)
    requires HexValue(a).Some? && HexValue(b).Some?
    ensures var n := 16 * HexValue(a).value + HexValue(b).value;
            32 <= n <= 126 || n in {9, 10, 13} ==> Needless(a, b)
  {
    HexDigitOfValue(a);
    HexDigitOfValue(b);
    DigitInTable(HexValue(a).value);
    DigitInTable(HexValue(b).value);
  }

  /** A refused text has a decodable front, and right after it the fault that the error names. */
  lemma {:induction false} RefusalIsTrue(s: string) returns (k: nat)
    requires Unescape(s).Err?
    ensures k < |s| && Unescape(s[..k]).Ok? && Fault(s[k..], Unescape(s).error)
    decreases |s|
  {
    if DecodeFront(s).Err? {
      FrontFault(s);
      k := 0;
      assert s[0..] == s;
    } else {
      var n := DecodeFront(s).value.1;
      var rest := RefusalIsTrue(s[n..]);
      k := n + rest;
      assert s[k..] == s[n..][rest..] && s[..k][n..] == s[n..][..rest];
      FrontIsEnough(s, k);
    }
  }

  /** The front decides how it is decoded. */
  lemma FrontIsEnough(s: string, k: nat)
    requires s != [] && DecodeFront(s).Ok? && DecodeFront(s).value.1 <= k <= |s|
    ensures s[..k] != [] && DecodeFront(s[..k]) == DecodeFront(s)
  {
  }
}
