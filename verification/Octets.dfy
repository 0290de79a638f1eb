/** Octet strings (one `char` per octet) and their self-delimiting encodings. */
module Octets {
  import opened Prelude

  ghost predicate IsOctets(s: string) {
    forall i :: 0 <= i < |s| ==> s[i] as int < 256
  }

  predicate IsAscii(s: string) {
    forall i :: 0 <= i < |s| ==> s[i] as int < 128
  }

  /** `m` occurs in `s` at `p`. */
  predicate At(s: string, m: string, p: int) {
    0 <= p <= |s| - |m| && s[p..p + |m|] == m
  }

  predicate Occurs(part: string, s: string) {
    exists i | 0 <= i <= |s| - |part| :: At(s, part, i)
  }

  /** What surrounds an occurrence. */
  lemma Surroundings(part: string, s: string) returns (before: string, after: string)
    requires Occurs(part, s)
    ensures s == before + part + after
  {
    var i: int :| 0 <= i <= |s| - |part| && At(s, part, i);
    before, after := s[..i], s[i + |part|..];
    assert s == s[..i] + s[i..i + |part|] + s[i + |part|..];
  }

  // ---- Fixed-width little-endian integers -----------------------------------------------------------------

  function Pow256(k: nat): nat {
    if k == 0 then 1 else 256 * Pow256(k - 1)
  }

  /** The low `k` octets of `n`, least significant first. */
  function LittleEndian(n: nat, k: nat): (s: string)
    ensures |s| == k
    decreases k
  {
    if k == 0 then "" else [(n % 256) as char] + LittleEndian(n / 256, k - 1)
  }

  function Value(s: string): nat {
    if s == [] then 0 else s[0] as int + 256 * Value(s[1..])
  }

  lemma {:induction false} LittleEndianValue(n: nat, k: nat)
    requires n < Pow256(k)
    ensures Value(LittleEndian(n, k)) == n
    decreases k
  {
    if k > 0 {
      LittleEndianValue(n / 256, k - 1);
      assert LittleEndian(n, k)[1..] == LittleEndian(n / 256, k - 1);
    }
  }

  /** `u64::to_le_bytes`. */
  function U64(n: nat): (s: string)
    ensures |s| == 8
  {
    LittleEndian(n, 8)
  }

  lemma U64Injective(a: nat, b: nat)
    requires a <= U64_MAX && b <= U64_MAX && U64(a) == U64(b)
    ensures a == b
  {
    assert Pow256(8) == U64_MAX + 1 by {
      assert Pow256(4) == 0x1_0000_0000;
      assert Pow256(8) == 256 * (256 * (256 * (256 * Pow256(4))));
    }
    LittleEndianValue(a, 8);
    LittleEndianValue(b, 8);
  }

  // ---- Length-prefixed fields -----------------------------------------------------------------------------

  /** A field that a 64-bit length can describe. */
  predicate Sized(s: string) {
    |s| <= U64_MAX
  }

  ghost predicate AllSized(fs: seq<string>) {
    forall i :: 0 <= i < |fs| ==> Sized(fs[i])
  }

  /** `update_field`: the length, then the octets. */
  function Field(s: string): string {
    U64(|s|) + s
  }

  function Fields(fs: seq<string>): string {
    if fs == [] then "" else Field(fs[0]) + Fields(fs[1..])
  }

  /** A field can be cut off the front of a stream in one way only. */
  lemma FieldUnique(a: string, x: string, b: string, y: string)
    requires Sized(a) && Sized(b) && Field(a) + x == Field(b) + y
    ensures a == b && x == y
  {
    Regroup(U64(|a|), a, x);
    Regroup(U64(|b|), b, y);
    SameCut(U64(|a|), a + x, U64(|b|), b + y);
    U64Injective(|a|, |b|);
    SameCut(a, x, b, y);
  }

  /** A stream made of fields alone determines the fields. */
  lemma {:induction false} FieldsInjective(fs: seq<string>, gs: seq<string>)
    requires AllSized(fs) && AllSized(gs) && Fields(fs) == Fields(gs)
    ensures fs == gs
  {
    if fs != [] && gs != [] {
      FieldUnique(fs[0], Fields(fs[1..]), gs[0], Fields(gs[1..]));
      FieldsInjective(fs[1..], gs[1..]);
      assert fs == [fs[0]] + fs[1..] && gs == [gs[0]] + gs[1..];
    }
  }

  /** A counted list of fields can be cut off the front of a stream in one way only. */
  lemma {:induction false} CountedFieldsUnique(fs: seq<string>, x: string, gs: seq<string>, y: string)
    requires AllSized(fs) && AllSized(gs) && |fs| == |gs| && Fields(fs) + x == Fields(gs) + y
    ensures fs == gs && x == y
  {
    if fs == [] {
      assert "" + x == x && "" + y == y;
    } else {
      Regroup(Field(fs[0]), Fields(fs[1..]), x);
      Regroup(Field(gs[0]), Fields(gs[1..]), y);
      FieldUnique(fs[0], Fields(fs[1..]) + x, gs[0], Fields(gs[1..]) + y);
      CountedFieldsUnique(fs[1..], x, gs[1..], y);
      assert fs == [fs[0]] + fs[1..] && gs == [gs[0]] + gs[1..];
    }
  }

  lemma {:induction false} FieldsAppend(fs: seq<string>, gs: seq<string>)
    ensures Fields(fs + gs) == Fields(fs) + Fields(gs)
  {
    if fs == [] {
      assert fs + gs == gs;
    } else {
      assert (fs + gs)[1..] == fs[1..] + gs;
      FieldsAppend(fs[1..], gs);
    }
  }

  // ---- Reading fields back --------------------------------------------------------------------------------

  /** A 64-bit number, least significant octet first, and what follows it. */
  function ReadU64(s: string): Option<(nat, string)> {
    if |s| < 8 then None
    else Some((s[0] as int + 0x100 * s[1] as int + 0x1_0000 * s[2] as int + 0x100_0000 * s[3] as int
               + 0x1_0000_0000 * s[4] as int + 0x100_0000_0000 * s[5] as int + 0x1_0000_0000_0000 * s[6] as int
               + 0x100_0000_0000_0000 * s[7] as int, s[8..]))
  }

  lemma ValueOfEight(s: string)
    requires |s| >= 8
    ensures ReadU64(s).value.0 == Value(s[..8])
  {
    var t := s[..8];
    assert t[0..] == t && t[8..] == [];
    ValueFrom(t, 0);
    ValueFrom(t, 1);
    ValueFrom(t, 2);
    ValueFrom(t, 3);
    ValueFrom(t, 4);
    ValueFrom(t, 5);
    ValueFrom(t, 6);
    ValueFrom(t, 7);
  }

  lemma ValueFrom(s: string, k: nat)
    requires k < |s|
    ensures Value(s[k..]) == s[k] as int + 256 * Value(s[k + 1..])
  {
    assert s[k..][1..] == s[k + 1..];
  }

  lemma U64ReadsBack(n: nat, rest: string)
    requires n <= U64_MAX
    ensures ReadU64(U64(n) + rest) == Some((n, rest))
  {
    assert Pow256(8) == U64_MAX + 1 by {
      assert Pow256(4) == 0x1_0000_0000;
      assert Pow256(8) == 256 * (256 * (256 * (256 * Pow256(4))));
    }
    LittleEndianValue(n, 8);
    ValueOfEight(U64(n) + rest);
    assert (U64(n) + rest)[..8] == U64(n) && (U64(n) + rest)[8..] == rest;
  }

  function ReadField(s: string): Option<(string, string)> {
    var length := ReadU64(s);
    if length.None? || |length.value.1| < length.value.0 then None
    else Some((length.value.1[..length.value.0], length.value.1[length.value.0..]))
  }

  lemma FieldReadsBack(a: string, rest: string)
    requires Sized(a)
    ensures ReadField(Field(a) + rest) == Some((a, rest))
  {
    Regroup(U64(|a|), a, rest);
    U64ReadsBack(|a|, a + rest);
    assert (a + rest)[..|a|] == a && (a + rest)[|a|..] == rest;
  }

  function ReadFields(s: string, n: nat): Option<(seq<string>, string)>
    decreases n
  {
    if n == 0 then Some(([], s)) else
    var first := ReadField(s);
    if first.None? then None else
    var more := ReadFields(first.value.1, n - 1);
    if more.None? then None else Some(([first.value.0] + more.value.0, more.value.1))
  }

  lemma {:induction false} FieldsReadBack(fs: seq<string>, rest: string)
    requires AllSized(fs)
    ensures ReadFields(Fields(fs) + rest, |fs|) == Some((fs, rest))
  {
    if fs == [] {
      assert "" + rest == rest;
    } else {
      FieldsReadBack(fs[1..], rest);
      FirstReadsBack(fs[0], fs[1..], rest);
      assert fs == [fs[0]] + fs[1..];
    }
  }

  lemma FirstReadsBack(a: string, fs: seq<string>, rest: string)
    requires Sized(a) && ReadFields(Fields(fs) + rest, |fs|) == Some((fs, rest))
    ensures ReadFields((Field(a) + Fields(fs)) + rest, |fs| + 1) == Some(([a] + fs, rest))
  {
    Regroup(Field(a), Fields(fs), rest);
    FieldReadsBack(a, Fields(fs) + rest);
  }

  /** A count, and that many fields. */
  function ReadCounted(s: string): Option<(seq<string>, string)> {
    var count := ReadU64(s);
    if count.None? then None else ReadFields(count.value.1, count.value.0)
  }

  lemma CountedReadsBack(fs: seq<string>, rest: string)
    requires AllSized(fs) && |fs| <= U64_MAX
    ensures ReadCounted(U64(|fs|) + (Fields(fs) + rest)) == Some((fs, rest))
  {
    U64ReadsBack(|fs|, Fields(fs) + rest);
    FieldsReadBack(fs, rest);
  }

  // ---- Decimal numerals -----------------------------------------------------------------------------------

  predicate IsDigit(c: char) {
    '0' <= c <= '9'
  }

  /** `to_string` of an unsigned integer. */
  function Decimal(n: nat): (s: string)
    ensures s != [] && forall i :: 0 <= i < |s| ==> IsDigit(s[i])
  {
    var last := ['0' + (n % 10) as char];
    if n < 10 then last else Decimal(n / 10) + last
  }

  /** Reads digits from the front, on top of what was read before; the rest starts with no digit. */
  function ReadDecimal(s: string, sofar: nat): (r: (nat, string))
    decreases |s|
  {
    if s != [] && IsDigit(s[0]) then ReadDecimal(s[1..], 10 * sofar + (s[0] as int - '0' as int))
    else (sofar, s)
  }

  function Pow10(k: nat): (p: nat)
    ensures p > 0
  {
    if k == 0 then 1 else 10 * Pow10(k - 1)
  }

  lemma {:induction false} ReadDecimalOver(n: nat, rest: string, sofar: nat)
    ensures ReadDecimal(Decimal(n) + rest, sofar) == ReadDecimal(rest, sofar * Pow10(|Decimal(n)|) + n)
    decreases n
  {
    var last := ['0' + (n % 10) as char];
    if n < 10 {
      assert Decimal(n) + rest == last + rest;
      assert (last + rest)[1..] == rest;
      assert Pow10(1) == 10;
    } else {
      var front := Decimal(n / 10);
      assert Decimal(n) + rest == front + (last + rest);
      ReadDecimalOver(n / 10, last + rest, sofar);
      assert (last + rest)[1..] == rest;
      var p := Pow10(|front|);
      assert Pow10(|front| + 1) == 10 * p;
      NextDigit(sofar, p, n);
    }
  }

  lemma NextDigit(sofar: nat, p: nat, n: nat)
    ensures 10 * (sofar * p + n / 10) + n % 10 == sofar * (10 * p) + n
  {
    assert sofar * (10 * p) == 10 * (sofar * p);
  }

  /** A numeral that is not followed by a digit reads back. */
  lemma DecimalReadsBack(n: nat, rest: string)
    requires rest == [] || !IsDigit(rest[0])
    ensures ReadDecimal(Decimal(n) + rest, 0) == (n, rest)
  {
    ReadDecimalOver(n, rest, 0);
  }

  // ---- Hexadecimal digits ----------------------------------------------------------------------------------

  predicate IsLowerHex(c: char) {
    '0' <= c <= '9' || 'a' <= c <= 'f'
  }

  /** The digits `0` to `9` and `a` to `f`. */
  function HexDigit(n: nat): (c: char)
    requires n < 16
    ensures HexValue(c) == Some(n)
  {
    if n < 10 then '0' + n as char else 'a' + (n - 10) as char
  }

  /** The value of a lower-case digit. */
  function HexValue(c: char): (v: Option<nat>)
    ensures v.Some? <==> IsLowerHex(c)
    ensures v.Some? ==> v.value < 16
  {
    if '0' <= c <= '9' then Some(c as int - '0' as int)
    else if 'a' <= c <= 'f' then Some(c as int - 'a' as int + 10)
    else None
  }

  lemma HexDigitOfValue(c: char)
    requires HexValue(c).Some?
    ensures HexDigit(HexValue(c).value) == c
  {
  }

  // ---- Reading labelled text ------------------------------------------------------------------------------

  /** Everything before the first `c`, and everything after it; all of the text when there is no `c`. */
  function Before(s: string, c: char): string {
    if s == [] || s[0] == c then "" else [s[0]] + Before(s[1..], c)
  }

  lemma {:induction false} BeforeStops(a: string, c: char, rest: string)
    requires c !in a
    ensures Before(a + [c] + rest, c) == a
  {
    var s := a + [c] + rest;
    if a != [] {
      assert a[0] in a && a == [a[0]] + a[1..];
      assert s[0] == a[0] && s[1..] == a[1..] + [c] + rest;
      BeforeStops(a[1..], c, rest);
    }
  }

  function Strip(s: string, prefix: string): Option<string> {
    if prefix <= s then Some(s[|prefix|..]) else None
  }

  /** A name, then a value up to the next `stop`; what is left begins with `stop`, if there is one. */
  function ReadUntil(s: string, name: string, stop: char): Option<(string, string)> {
    var rest := Strip(s, name);
    if rest.None? then None
    else
      BeforeFits(rest.value, stop);
      var value := Before(rest.value, stop);
      Some((value, rest.value[|value|..]))
  }

  lemma {:induction false} BeforeFits(s: string, c: char)
    ensures |Before(s, c)| <= |s|
  {
    if s != [] { BeforeFits(s[1..], c); }
  }

  lemma {:induction false} BeforeHasNoStop(s: string, c: char)
    ensures c !in Before(s, c)
  {
    if s != [] { BeforeHasNoStop(s[1..], c); }
  }

  /** A name followed by a number, and then the rest. */
  function ReadNumbered(s: string, name: string): Option<(nat, string)> {
    var rest := Strip(s, name);
    if rest.None? then None else Some(ReadDecimal(rest.value, 0))
  }

  lemma StripBack(prefix: string, rest: string)
    ensures Strip(prefix + rest, prefix) == Some(rest)
  {
    assert (prefix + rest)[|prefix|..] == rest;
  }

  lemma ReadUntilBack(name: string, value: string, stop: char, rest: string)
    requires stop !in value && rest != [] && rest[0] == stop
    ensures ReadUntil(name + (value + rest), name, stop) == Some((value, rest))
  {
    StripBack(name, value + rest);
    assert value + rest == value + [stop] + rest[1..];
    BeforeStops(value, stop, rest[1..]);
    assert (value + rest)[|value|..] == rest;
  }

  lemma ReadNumberedEnd(name: string, n: nat)
    ensures ReadNumbered(name + Decimal(n), name) == Some((n, ""))
  {
    StripBack(name, Decimal(n));
    DecimalReadsBack(n, "");
    assert Decimal(n) + "" == Decimal(n);
  }

  lemma ReadNumberedBack(name: string, n: nat, rest: string)
    requires rest != [] && !IsDigit(rest[0])
    ensures ReadNumbered(name + (Decimal(n) + rest), name) == Some((n, rest))
  {
    StripBack(name, Decimal(n) + rest);
    DecimalReadsBack(n, rest);
  }
}
