/** Lower-case hexadecimal text of a 32-octet digest, both ways (hosted_reader_jsonl.rs). */
module DigestHex {
  import opened Prelude
  import opened Octets

  const DIGEST_BYTES: nat := 32

  datatype HexError = MalformedDigest

  function HexPair(octet: char): (s: string)
    requires octet as int < 256
    ensures |s| == 2
  {
    [HexDigit(octet as int / 16), HexDigit(octet as int % 16)]
  }

  function HexText(s: string): (text: string)
    requires IsOctets(s)
    ensures |text| == 2 * |s|
  {
    if s == [] then "" else HexPair(s[0]) + HexText(s[1..])
  }

  /** `is_ascii_hexdigit`, which takes both cases. */
  predicate IsHexDigit(c: char) {
    IsLowerHex(c) || 'A' <= c <= 'F'
  }

  predicate IsUpper(c: char) {
    'A' <= c <= 'Z'
  }

  /** The texts that name a digest. */
  ghost predicate IsDigestText(text: string) {
    |text| == 64 && forall i :: 0 <= i < |text| ==> IsLowerHex(text[i])
  }

  /** `hex`. */
  method EncodeHex(s: string) returns (text: string)
    requires IsOctets(s)
    ensures text == HexText(s)
  {
    text := "";
    for i := 0 to |s|
      invariant HexText(s) == text + HexText(s[i..])
    {
      NextOctet(text, s, i);
      text := text + [HexDigit(s[i] as int / 16)] + [HexDigit(s[i] as int % 16)];
    }
  }

  lemma NextOctet(text: string, s: string, i: nat)
    requires IsOctets(s) && i < |s|
    ensures text + HexText(s[i..])
         == text + [HexDigit(s[i] as int / 16)] + [HexDigit(s[i] as int % 16)] + HexText(s[i + 1..])
  {
    assert s[i..][1..] == s[i + 1..] && s[i..][0] == s[i];
    Regroup(text, HexPair(s[i]), HexText(s[i + 1..]));
    assert text + HexPair(s[i]) == text + [HexDigit(s[i] as int / 16)] + [HexDigit(s[i] as int % 16)];
  }

  /** `parse_digest_hex_v1`: accepts exactly the digest texts, and yields the octets whose text it is. */
  method ParseDigestHex(text: string) returns (r: Result<string, HexError>)
    ensures r.Ok? <==> IsDigestText(text)
    ensures r.Ok? ==> |r.value| == DIGEST_BYTES && IsOctets(r.value) && HexText(r.value) == text
  {
    if |text| != 64 || exists i :: 0 <= i < |text| && !IsHexDigit(text[i]) { return Err(MalformedDigest); }
    var bytes := new char[DIGEST_BYTES];
    for i := 0 to DIGEST_BYTES
      invariant Spells(bytes[..i], text, i)
    {
      var high, low := HexValue(text[2 * i]), HexValue(text[2 * i + 1]);
      if IsUpper(text[2 * i]) || IsUpper(text[2 * i + 1]) { return Err(MalformedDigest); }
      if high.None? { return Err(MalformedDigest); }
      if low.None? { return Err(MalformedDigest); }
      ghost var before := bytes[..i];
      NextPair(text, i, before, high.value, low.value);
      bytes[i] := (16 * high.value + low.value) as char;
      assert bytes[..i + 1] == before + [bytes[i]];
    }
    assert text[..64] == text;
    return Ok(bytes[..DIGEST_BYTES]);
  }

  /** `bytes` are what the first `i` pairs of `text` spell. */
  ghost predicate Spells(bytes: string, text: string, i: nat) {
    2 * i <= |text| && IsOctets(bytes) && HexText(bytes) == text[..2 * i]
        && forall k :: 0 <= k < 2 * i ==> IsLowerHex(text[k])
  }

  lemma NextPair(text: string, i: nat, before: string, high: nat, low: nat)
    requires 2 * i + 1 < |text| && Spells(before, text, i)
    requires HexValue(text[2 * i]) == Some(high) && HexValue(text[2 * i + 1]) == Some(low)
    ensures Spells(before + [(16 * high + low) as char], text, i + 1)
  {
    var c := (16 * high + low) as char;
    HexDigitOfValue(text[2 * i]);
    HexDigitOfValue(text[2 * i + 1]);
    assert HexPair(c) == [text[2 * i], text[2 * i + 1]];
    HexTextAppend(before, c);
    assert text[..2 * i + 2] == text[..2 * i] + HexPair(c);
  }

  lemma {:induction false} HexTextAppend(s: string, c: char)
    requires IsOctets(s) && c as int < 256
    ensures IsOctets(s + [c]) && HexText(s + [c]) == HexText(s) + HexPair(c)
  {
    if s == [] {
      assert s + [c] == [c] && HexText([c]) == HexPair(c) + HexText([c][1..]);
    } else {
      assert (s + [c])[1..] == s[1..] + [c];
      HexTextAppend(s[1..], c);
      Regroup(HexPair(s[0]), HexText(s[1..]), HexPair(c));
    }
  }

  /** A digest's text is a digest text, so the parser accepts it. */
  lemma {:induction false} HexTextIsLowerHex(s: string)
    requires IsOctets(s)
    ensures forall i :: 0 <= i < |HexText(s)| ==> IsLowerHex(HexText(s)[i])
  {
    if s != [] { HexTextIsLowerHex(s[1..]); }
  }

  /** Octets with the same text are the same: with the parser's promise, each way undoes the other. */
  lemma {:induction false} HexTextInjective(s: string, t: string)
    requires IsOctets(s) && IsOctets(t) && HexText(s) == HexText(t)
    ensures s == t
  {
    if s != [] && t != [] {
      SameCut(HexPair(s[0]), HexText(s[1..]), HexPair(t[0]), HexText(t[1..]));
      HexPairInjective(s[0], t[0]);
      HexTextInjective(s[1..], t[1..]);
      assert s == [s[0]] + s[1..] && t == [t[0]] + t[1..];
    }
  }

  lemma HexPairInjective(a: char, b: char)
    requires a as int < 256 && b as int < 256 && HexPair(a) == HexPair(b)
    ensures a == b
  {
    assert HexPair(a)[0] == HexPair(b)[0] && HexPair(a)[1] == HexPair(b)[1];
  }

  /** Encoding a digest and parsing the text gives the digest again; parsing and encoding gives the text again. */
  method RoundTrip(digest: string) returns (text: string, parsed: Result<string, HexError>)
    requires IsOctets(digest) && |digest| == DIGEST_BYTES
    ensures IsDigestText(text) && parsed == Ok(digest)
  {
    text := EncodeHex(digest);
    HexTextIsLowerHex(digest);
    parsed := ParseDigestHex(text);
    HexTextInjective(parsed.value, digest);
  }

  /** Each octet is spelled by its two digits, in order. */
  lemma {:induction false} HexTextExactly(s: string, i: nat)
    requires IsOctets(s) && i < |s|
    ensures HexText(s)[2 * i] == "0123456789abcdef"[s[i] as int / 16]
    ensures HexText(s)[2 * i + 1] == "0123456789abcdef"[s[i] as int % 16]
  {
    if i == 0 {
      DigitAt(s[0] as int / 16);
      DigitAt(s[0] as int % 16);
    } else {
      HexTextExactly(s[1..], i - 1);
    }
  }

  lemma DigitAt(n: nat)
    requires n < 16
    ensures HexDigit(n) == "0123456789abcdef"[n]
  {
  }
}
