/** The environment and program of a subprocess run, and the octets its invocation digest binds (domain.rs). */
module Invocation {
  import opened Prelude
  import opened Octets
  import opened Ordering

  const INVOCATION_DOMAIN := "evidentrail/bench-harness/subprocess-invocation/v1"

  type u64 = n: nat | n <= U64_MAX

  datatype HarnessError = InvalidEnvironmentName | DuplicateEnvironmentAllowlistName | InvalidEnvironmentValue
    | EnvironmentNameNotAllowlisted | DuplicateEnvironmentBinding | InvalidExecutablePath | InvalidWorkingDirectory
    | InvalidArgument | InvalidAdapterRevision | InvocationBindingOverflow

  datatype Binding = Binding(name: string, value: string)

  datatype Environment = Environment(allowed: seq<string>, bindings: seq<Binding>)

  datatype OutputContract = OpaqueArtifactOnly | ExactIdentityNormalizer

  datatype Program = Program(system: string, build: string, path: string, argv: seq<string>, cwd: string,
                             environment: Environment, output: OutputContract, revision: Option<string>)

  // ---- Closed environments --------------------------------------------------------------------------------

  predicate IsUpperOrUnderscore(c: char) {
    c == '_' || 'A' <= c <= 'Z'
  }

  /** `validate_environment_name`. */
  predicate ValidName(name: string) {
    name != "" && IsUpperOrUnderscore(name[0])
    && forall i :: 1 <= i < |name| ==> IsUpperOrUnderscore(name[i]) || '0' <= name[i] <= '9'
  }

  function NameOf(b: Binding): string {
    b.name
  }

  /** The first complaint about the allow-list from position `i` on. */
  function AllowedVerdict(names: seq<string>, i: nat): (e: Option<HarnessError>)
    requires i <= |names|
    decreases |names| - i
  {
    if i == |names| then None
    else if !ValidName(names[i]) then Some(InvalidEnvironmentName)
    else if names[i] in names[..i] then Some(DuplicateEnvironmentAllowlistName)
    else AllowedVerdict(names, i + 1)
  }

  predicate Bound(bs: seq<Binding>, name: string) {
    exists b | b in bs :: b.name == name
  }

  /** The first complaint about the bindings from position `i` on. */
  function BindingsVerdict(names: seq<string>, bs: seq<Binding>, i: nat): (e: Option<HarnessError>)
    requires i <= |bs|
    decreases |bs| - i
  {
    if i == |bs| then None
    else if !ValidName(bs[i].name) then Some(InvalidEnvironmentName)
    else if '\0' in bs[i].value then Some(InvalidEnvironmentValue)
    else if bs[i].name !in names then Some(EnvironmentNameNotAllowlisted)
    else if Bound(bs[..i], bs[i].name) then Some(DuplicateEnvironmentBinding)
    else BindingsVerdict(names, bs, i + 1)
  }

  function EnvironmentOf(names: seq<string>, bs: seq<Binding>): Result<Environment, HarnessError> {
    var first := AllowedVerdict(names, 0);
    if first.Some? then Err(first.value) else
    var second := BindingsVerdict(names, bs, 0);
    if second.Some? then Err(second.value) else Ok(Environment(Sort(Itself, names), Sort(NameOf, bs)))
  }

  /** `ClosedEnvironmentV1::try_new`. */
  method NewEnvironment(names: seq<string>, bs: seq<Binding>) returns (r: Result<Environment, HarnessError>)
    ensures r == EnvironmentOf(names, bs)
  {
    var allowed: set<string> := {};
    for i := 0 to |names|
      invariant AllowedVerdict(names, 0) == AllowedVerdict(names, i)
      invariant forall name :: name in allowed <==> name in names[..i]
    {
      if !ValidName(names[i]) { return Err(InvalidEnvironmentName); }
      if names[i] in allowed { return Err(DuplicateEnvironmentAllowlistName); }
      allowed := allowed + {names[i]};
    }
    assert names[..|names|] == names;
    var seen: set<string> := {};
    var canonical: seq<Binding> := [];
    for i := 0 to |bs|
      invariant BindingsVerdict(names, bs, 0) == BindingsVerdict(names, bs, i)
      invariant forall name :: name in seen <==> Bound(bs[..i], name)
      invariant canonical == bs[..i]
    {
      if !ValidName(bs[i].name) { return Err(InvalidEnvironmentName); }
      if '\0' in bs[i].value { return Err(InvalidEnvironmentValue); }
      if bs[i].name !in allowed { return Err(EnvironmentNameNotAllowlisted); }
      if bs[i].name in seen { return Err(DuplicateEnvironmentBinding); }
      assert bs[..i + 1] == bs[..i] + [bs[i]];
      seen := seen + {bs[i].name};
      canonical := canonical + [Binding(bs[i].name, bs[i].value)];
    }
    assert bs[..|bs|] == bs;
    return Ok(Environment(Sort(Itself, names), Sort(NameOf, canonical)));
  }

  /** What an environment has to be, without regard to order. */
  ghost predicate Acceptable(names: seq<string>, bs: seq<Binding>) {
    (forall name :: name in names ==> ValidName(name)) && Distinct(names)
    && (forall b :: b in bs ==> ValidName(b.name) && '\0' !in b.value && b.name in names)
    && Distinct(bs) && KeyedBy(NameOf, bs)
  }

  lemma {:induction false} AllowedVerdictExact(names: seq<string>, i: nat)
    requires i <= |names|
    ensures AllowedVerdict(names, i).None?
       <==> forall k :: i <= k < |names| ==> ValidName(names[k]) && names[k] !in names[..k]
    decreases |names| - i
  {
    if i < |names| { AllowedVerdictExact(names, i + 1); }
  }

  lemma {:induction false} BindingsVerdictExact(names: seq<string>, bs: seq<Binding>, i: nat)
    requires i <= |bs|
    ensures BindingsVerdict(names, bs, i).None?
       <==> forall k :: i <= k < |bs| ==> ValidName(bs[k].name) && '\0' !in bs[k].value && bs[k].name in names
                                          && !Bound(bs[..k], bs[k].name)
    decreases |bs| - i
  {
    if i < |bs| { BindingsVerdictExact(names, bs, i + 1); }
  }

  lemma DistinctByPrefix<T>(s: seq<T>)
    ensures Distinct(s) <==> forall k :: 0 <= k < |s| ==> s[k] !in s[..k]
  {
    if forall k :: 0 <= k < |s| ==> s[k] !in s[..k] {
      forall i, j | 0 <= i < j < |s| ensures s[i] != s[j] { assert s[..j][i] == s[i]; }
    }
  }

  lemma NamesApart(bs: seq<Binding>)
    ensures (forall k :: 0 <= k < |bs| ==> !Bound(bs[..k], bs[k].name)) <==> Distinct(bs) && KeyedBy(NameOf, bs)
  {
    if forall k :: 0 <= k < |bs| ==> !Bound(bs[..k], bs[k].name) {
      forall i, j | 0 <= i < j < |bs| ensures bs[i].name != bs[j].name { assert bs[..j][i] == bs[i]; }
      forall x, y | x in bs && y in bs && NameOf(x) == NameOf(y) ensures x == y {
        var i :| 0 <= i < |bs| && bs[i] == x;
        var j :| 0 <= j < |bs| && bs[j] == y;
      }
    }
    if Distinct(bs) && KeyedBy(NameOf, bs) {
      forall k | 0 <= k < |bs| ensures !Bound(bs[..k], bs[k].name) {
        forall b | b in bs[..k] ensures b.name != bs[k].name {
          var i :| 0 <= i < k && bs[i] == b;
          assert bs[i] != bs[k] && NameOf(bs[i]) != NameOf(bs[k]);
        }
      }
    }
  }

  /** The names in ascending order, and the bindings in ascending order of their names. */
  ghost predicate Arranged(e: Environment, names: seq<string>, bs: seq<Binding>) {
    && multiset(e.allowed) == multiset(names) && multiset(e.bindings) == multiset(bs)
    && (forall i, j :: 0 <= i < j < |e.allowed| ==> Leq(e.allowed[i], e.allowed[j]))
    && forall i, j :: 0 <= i < j < |e.bindings| ==> Leq(e.bindings[i].name, e.bindings[j].name)
  }

  lemma SortedIsArranged(names: seq<string>, bs: seq<Binding>)
    ensures Arranged(Environment(Sort(Itself, names), Sort(NameOf, bs)), names, bs)
  {
    var allowed, bindings := Sort(Itself, names), Sort(NameOf, bs);
    forall i, j | 0 <= i < j < |allowed| ensures Leq(allowed[i], allowed[j]) {
      assert Leq(Itself(allowed[i]), Itself(allowed[j]));
    }
    forall i, j | 0 <= i < j < |bindings| ensures Leq(bindings[i].name, bindings[j].name) {
      assert Leq(NameOf(bindings[i]), NameOf(bindings[j]));
    }
  }

  /** The error names a fault that is there. */
  ghost predicate Faulty(names: seq<string>, bs: seq<Binding>, error: HarnessError) {
    match error
    case InvalidEnvironmentName =>
      (exists name :: name in names && !ValidName(name)) || (exists b :: b in bs && !ValidName(b.name))
    case DuplicateEnvironmentAllowlistName => exists i, j :: 0 <= i < j < |names| && names[i] == names[j]
    case InvalidEnvironmentValue => exists b :: b in bs && '\0' in b.value
    case EnvironmentNameNotAllowlisted => exists b :: b in bs && b.name !in names
    case DuplicateEnvironmentBinding => exists i, j :: 0 <= i < j < |bs| && bs[i].name == bs[j].name
    case _ => false
  }

  lemma {:induction false} AllowedFault(names: seq<string>, bs: seq<Binding>, i: nat)
    requires i <= |names| && AllowedVerdict(names, i).Some?
    ensures Faulty(names, bs, AllowedVerdict(names, i).value)
    decreases |names| - i
  {
    if ValidName(names[i]) {
      if names[i] in names[..i] {
        var k :| 0 <= k < i && names[..i][k] == names[i];
        assert names[k] == names[i];
      } else {
        AllowedFault(names, bs, i + 1);
      }
    }
  }

  lemma {:induction false} BindingsFault(names: seq<string>, bs: seq<Binding>, i: nat)
    requires i <= |bs| && BindingsVerdict(names, bs, i).Some?
    ensures Faulty(names, bs, BindingsVerdict(names, bs, i).value)
    decreases |bs| - i
  {
    assert bs[i] in bs;
    if ValidName(bs[i].name) && '\0' !in bs[i].value && bs[i].name in names {
      if Bound(bs[..i], bs[i].name) {
        var b :| b in bs[..i] && b.name == bs[i].name;
        var k :| 0 <= k < i && bs[k] == b;
        assert bs[k].name == bs[i].name;
      } else {
        BindingsFault(names, bs, i + 1);
      }
    }
  }

  /** What is constructed is its arguments arranged, and an error names a fault in them. */
  lemma EnvironmentSays(names: seq<string>, bs: seq<Binding>)
    ensures EnvironmentOf(names, bs).Ok? ==> Arranged(EnvironmentOf(names, bs).value, names, bs)
    ensures EnvironmentOf(names, bs).Err? ==> Faulty(names, bs, EnvironmentOf(names, bs).error)
  {
    SortedIsArranged(names, bs);
    if AllowedVerdict(names, 0).Some? { AllowedFault(names, bs, 0); }
    if BindingsVerdict(names, bs, 0).Some? { BindingsFault(names, bs, 0); }
  }

  /** Construction succeeds exactly for acceptable arguments. */
  lemma EnvironmentAcceptsExactly(names: seq<string>, bs: seq<Binding>)
    ensures EnvironmentOf(names, bs).Ok? <==> Acceptable(names, bs)
  {
    AllowedVerdictExact(names, 0);
    BindingsVerdictExact(names, bs, 0);
    DistinctByPrefix(names);
    NamesApart(bs);
  }

  /** The order in which names and bindings are given does not reach the environment, and so no hash input. */
  lemma EnvironmentIgnoresOrder(names: seq<string>, bs: seq<Binding>, names': seq<string>, bs': seq<Binding>)
    requires multiset(names) == multiset(names') && multiset(bs) == multiset(bs')
    ensures EnvironmentOf(names, bs).Ok? <==> EnvironmentOf(names', bs').Ok?
    ensures EnvironmentOf(names, bs).Ok? ==> EnvironmentOf(names, bs) == EnvironmentOf(names', bs')
  {
    EnvironmentAcceptsExactly(names, bs);
    EnvironmentAcceptsExactly(names', bs');
    if Acceptable(names, bs) {
      AcceptableIgnoresOrder(names, bs, names', bs');
      SortIgnoresOrder(Itself, names, names');
      SortIgnoresOrder(NameOf, bs, bs');
    }
    if Acceptable(names', bs') { AcceptableIgnoresOrder(names', bs', names, bs); }
  }

  lemma AcceptableIgnoresOrder(names: seq<string>, bs: seq<Binding>, names': seq<string>, bs': seq<Binding>)
    requires multiset(names) == multiset(names') && multiset(bs) == multiset(bs') && Acceptable(names, bs)
    ensures Acceptable(names', bs')
  {
    SameElements(names, names');
    SameElements(bs, bs');
    DistinctIgnoresOrder(names, names');
    DistinctIgnoresOrder(bs, bs');
    KeyedWithin(NameOf, bs, bs');
  }

  // ---- Programs -------------------------------------------------------------------------------------------

  /** `validate_absolute_utf8_path`. */
  predicate ValidPath(utf8: string -> bool, path: string) {
    "/" <= path && utf8(path) && '\0' !in path
  }

  predicate ValidRevision(revision: Option<string>) {
    revision.Some? ==> revision.value != "" && '\0' !in revision.value
  }

  /** `ExecutableBuildV1::try_new`. */
  method NewProgram(utf8: string -> bool, p: Program) returns (r: Result<Program, HarnessError>)
    ensures r.Ok? <==> ValidPath(utf8, p.path) && ValidPath(utf8, p.cwd)
                       && (forall i :: 0 <= i < |p.argv| ==> '\0' !in p.argv[i]) && ValidRevision(p.revision)
    ensures r.Ok? ==> r.value == p
    ensures r.Err? ==> r.error == if !ValidPath(utf8, p.path) then InvalidExecutablePath
                                  else if !ValidPath(utf8, p.cwd) then InvalidWorkingDirectory
                                  else if exists i :: 0 <= i < |p.argv| && '\0' in p.argv[i] then InvalidArgument
                                  else InvalidAdapterRevision
  {
    if !ValidPath(utf8, p.path) { return Err(InvalidExecutablePath); }
    if !ValidPath(utf8, p.cwd) { return Err(InvalidWorkingDirectory); }
    for i := 0 to |p.argv|
      invariant forall k :: 0 <= k < i ==> '\0' !in p.argv[k]
    {
      if '\0' in p.argv[i] { return Err(InvalidArgument); }
    }
    if !ValidRevision(p.revision) { return Err(InvalidAdapterRevision); }
    return Ok(p);
  }

  // ---- Invocations ----------------------------------------------------------------------------------------

  datatype Budget = Budget(events: u64, sourceBytes: u64, tokens: u64, wallNanos: u64, memoryBytes: u64)

  datatype RunIdentity = RunIdentity(system: string, build: string, dataset: string, seed: u64, budget: Budget)

  datatype SourceMap = SourceMap(digest: string, receipt: string, records: u64)

  datatype StdinClass = PublicCase | HermeticSyntheticFixture

  datatype Stdin = Stdin(class_: StdinClass, digest: string, bytes: u64)

  datatype Limits = Limits(stdin: u64, stdout: u64, stderr: u64, wallNanos: u64)

  datatype InputContract = ByteExact | KnownNormalization | FullMembership

  /** Everything the digest binds; the source binding and the resolution trust have one value each. */
  datatype Invocation = Invocation(manifestDigest: string, manifestBytes: u64, run: RunIdentity,
                                   caseDigest: string, caseBytes: u64, sources: SourceMap, program: Program,
                                   stdin: Stdin, limits: Limits, input: InputContract)

  function OutputCode(c: OutputContract): string {
    match c
    case OpaqueArtifactOnly => "opaque_artifact_only"
    case ExactIdentityNormalizer => "exact_identity_normalizer"
  }

  function StdinCode(c: StdinClass): string {
    match c
    case PublicCase => "public_case"
    case HermeticSyntheticFixture => "hermetic_synthetic_fixture"
  }

  function InputCode(c: InputContract): string {
    match c
    case ByteExact => "byte_exact"
    case KnownNormalization => "legacy_drain_raw_text_known_normalization"
    case FullMembership => "legacy_drain_raw_text_full_membership"
  }

  const STDIN_BINDING := "single_declared_source_exact_artifact"
  const RESOLUTION_TRUST := "canonical_public_case_artifact_and_source_exact_ledger"

  function RevisionText(revision: Option<string>): string {
    if revision.Some? then revision.value else ""
  }

  /** The fields of the run. */
  function RunFields(v: Invocation): (fs: seq<string>)
    ensures |fs| == 12
  {
    [INVOCATION_DOMAIN, v.manifestDigest, U64(v.manifestBytes), v.run.system, v.run.build, v.run.dataset,
     U64(v.run.seed), U64(v.run.budget.events), U64(v.run.budget.sourceBytes), U64(v.run.budget.tokens),
     U64(v.run.budget.wallNanos), U64(v.run.budget.memoryBytes)]
  }

  /** The fields of the case, its sources and the executable. */
  function CaseFields(v: Invocation): (fs: seq<string>)
    ensures |fs| == 8
  {
    [v.caseDigest, U64(v.caseBytes), v.sources.digest, v.sources.receipt, U64(v.sources.records), v.program.system,
     v.program.build, v.program.path]
  }

  /** A count followed by that many fields. */
  function Counted(fs: seq<string>): seq<string> {
    [U64(|fs|)] + fs
  }

  function Pairs(bs: seq<Binding>): (fs: seq<string>)
    ensures |fs| == 2 * |bs|
  {
    if bs == [] then [] else [bs[0].name, bs[0].value] + Pairs(bs[1..])
  }

  function CountedPairs(bs: seq<Binding>): seq<string> {
    [U64(|bs|)] + Pairs(bs)
  }

  /** The fields after the environment. */
  function TailFields(v: Invocation): (fs: seq<string>)
    ensures |fs| == 12
  {
    [OutputCode(v.program.output), RevisionText(v.program.revision), StdinCode(v.stdin.class_), v.stdin.digest,
     U64(v.stdin.bytes), U64(v.limits.stdin), U64(v.limits.stdout), U64(v.limits.stderr), U64(v.limits.wallNanos),
     InputCode(v.input), STDIN_BINDING, RESOLUTION_TRUST]
  }

  function ProgramFields(p: Program): seq<string> {
    Counted(p.argv) + ([p.cwd] + (Counted(p.environment.allowed) + CountedPairs(p.environment.bindings)))
  }

  function InvocationFields(v: Invocation): seq<string> {
    RunFields(v) + (CaseFields(v) + (ProgramFields(v.program) + TailFields(v)))
  }

  /** The octets that are hashed. */
  function HashInput(v: Invocation): string {
    Fields(InvocationFields(v))
  }

  /** Every length and count that is bound fits in 64 bits. */
  ghost predicate Fits(v: Invocation) {
    AllSized(InvocationFields(v)) && |v.program.argv| <= U64_MAX && |v.program.environment.allowed| <= U64_MAX
    && |v.program.environment.bindings| <= U64_MAX
  }

  /** The hash state, as the octets fed to it. */
  class Hasher {
    var fed: string

    constructor ()
      ensures fed == ""
    {
      fed := "";
    }

    /** `update_field`, once for each field, up to the first that does not fit. */
    method Feed(fs: seq<string>) returns (ok: bool)
      modifies this
      ensures ok <==> AllSized(fs)
      ensures ok ==> fed == old(fed) + Fields(fs)
    {
      for i := 0 to |fs|
        invariant forall k :: 0 <= k < i ==> Sized(fs[k])
        invariant fed + Fields(fs[i..]) == old(fed) + Fields(fs)
      {
        if |fs[i]| > U64_MAX { return false; }
        NextField(fed, fs, i);
        fed := fed + Field(fs[i]);
      }
      assert fed + "" == fed;
      return true;
    }
  }

  lemma NextField(fed: string, fs: seq<string>, i: nat)
    requires i < |fs|
    ensures fed + Fields(fs[i..]) == (fed + Field(fs[i])) + Fields(fs[i + 1..])
  {
    assert fs[i..][0] == fs[i] && fs[i..][1..] == fs[i + 1..];
    Regroup(fed, Field(fs[i]), Fields(fs[i + 1..]));
  }

  lemma AllSizedApart(fs: seq<string>, gs: seq<string>)
    ensures AllSized(fs + gs) <==> AllSized(fs) && AllSized(gs)
  {
    if AllSized(fs + gs) {
      forall i | 0 <= i < |fs| ensures Sized(fs[i]) { assert (fs + gs)[i] == fs[i]; }
      forall i | 0 <= i < |gs| ensures Sized(gs[i]) { assert (fs + gs)[|fs| + i] == gs[i]; }
    }
  }

  /** `derive_invocation_digest_v1`; the hash is any function of its input octets. */
  method DeriveDigest(hash: string -> string, v: Invocation) returns (r: Result<string, HarnessError>)
    ensures r == if Fits(v) then Ok(hash(HashInput(v))) else Err(InvocationBindingOverflow)
  {
    var h := new Hasher();
    var run, bound, program, tail := RunFields(v), CaseFields(v), ProgramFields(v.program), TailFields(v);
    AllSizedApart(run, bound + (program + tail));
    AllSizedApart(bound, program + tail);
    AllSizedApart(program, tail);
    var ok := h.Feed(run);
    if !ok { return Err(InvocationBindingOverflow); }
    ok := h.Feed(bound);
    if !ok { return Err(InvocationBindingOverflow); }
    if |v.program.argv| > U64_MAX || |v.program.environment.allowed| > U64_MAX
       || |v.program.environment.bindings| > U64_MAX {
      return Err(InvocationBindingOverflow);
    }
    ok := h.Feed(program);
    if !ok { return Err(InvocationBindingOverflow); }
    ok := h.Feed(tail);
    if !ok { return Err(InvocationBindingOverflow); }
    FedInOrder(run, bound, program, tail);
    return Ok(hash(h.fed));
  }

  lemma FedInOrder(a: seq<string>, b: seq<string>, c: seq<string>, d: seq<string>)
    ensures "" + Fields(a) + Fields(b) + Fields(c) + Fields(d) == Fields(a + (b + (c + d)))
  {
    FieldsAppend(c, d);
    FieldsAppend(b, c + d);
    FieldsAppend(a, b + (c + d));
    FourParts(Fields(a), Fields(b), Fields(c), Fields(d));
  }

  lemma FourParts(a: string, b: string, c: string, d: string)
    ensures "" + a + b + c + d == a + (b + (c + d))
  {
    Regroup(a + b, c, d);
    Regroup(a, b, c + d);
    assert "" + a == a;
  }

  // ---- Injectivity ----------------------------------------------------------------------------------------

  lemma CountedUnique(fs: seq<string>, x: seq<string>, gs: seq<string>, y: seq<string>)
    requires |fs| <= U64_MAX && |gs| <= U64_MAX && Counted(fs) + x == Counted(gs) + y
    ensures fs == gs && x == y
  {
    Regroup([U64(|fs|)], fs, x);
    Regroup([U64(|gs|)], gs, y);
    SameCut([U64(|fs|)], fs + x, [U64(|gs|)], gs + y);
    assert [U64(|fs|)][0] == [U64(|gs|)][0];
    U64Injective(|fs|, |gs|);
    SameCut(fs, x, gs, y);
  }

  lemma {:induction false} PairsInjective(bs: seq<Binding>, cs: seq<Binding>)
    requires Pairs(bs) == Pairs(cs)
    ensures bs == cs
  {
    if bs != [] && cs != [] {
      var b, c := [bs[0].name, bs[0].value], [cs[0].name, cs[0].value];
      SameCut(b, Pairs(bs[1..]), c, Pairs(cs[1..]));
      assert b[0] == c[0] && b[1] == c[1];
      PairsInjective(bs[1..], cs[1..]);
      assert bs == [bs[0]] + bs[1..] && cs == [cs[0]] + cs[1..];
    }
  }

  lemma CountedPairsUnique(bs: seq<Binding>, x: seq<string>, cs: seq<Binding>, y: seq<string>)
    requires |bs| <= U64_MAX && |cs| <= U64_MAX && CountedPairs(bs) + x == CountedPairs(cs) + y
    ensures bs == cs && x == y
  {
    Regroup([U64(|bs|)], Pairs(bs), x);
    Regroup([U64(|cs|)], Pairs(cs), y);
    SameCut([U64(|bs|)], Pairs(bs) + x, [U64(|cs|)], Pairs(cs) + y);
    assert [U64(|bs|)][0] == [U64(|cs|)][0];
    U64Injective(|bs|, |cs|);
    SameCut(Pairs(bs), x, Pairs(cs), y);
    PairsInjective(bs, cs);
  }

  lemma RunDetermines(v: Invocation, w: Invocation)
    requires RunFields(v) == RunFields(w)
    ensures v.manifestDigest == w.manifestDigest && v.manifestBytes == w.manifestBytes && v.run == w.run
  {
    var f, g, a, b := RunFields(v), RunFields(w), v.run.budget, w.run.budget;
    assert f[1] == g[1] && f[2] == g[2] && f[3] == g[3] && f[4] == g[4] && f[5] == g[5] && f[6] == g[6] && f[7] == g[7]
        && f[8] == g[8] && f[9] == g[9] && f[10] == g[10] && f[11] == g[11];
    U64Injective(v.manifestBytes, w.manifestBytes);
    U64Injective(v.run.seed, w.run.seed);
    U64Injective(a.events, b.events);
    U64Injective(a.sourceBytes, b.sourceBytes);
    U64Injective(a.tokens, b.tokens);
    U64Injective(a.wallNanos, b.wallNanos);
    U64Injective(a.memoryBytes, b.memoryBytes);
  }

  lemma CaseDetermines(v: Invocation, w: Invocation)
    requires CaseFields(v) == CaseFields(w)
    ensures v.caseDigest == w.caseDigest && v.caseBytes == w.caseBytes && v.sources == w.sources
    ensures v.program.system == w.program.system && v.program.build == w.program.build
    ensures v.program.path == w.program.path
  {
    var f, g := CaseFields(v), CaseFields(w);
    assert f[0] == g[0] && f[1] == g[1] && f[2] == g[2] && f[3] == g[3] && f[4] == g[4] && f[5] == g[5] && f[6] == g[6]
        && f[7] == g[7];
    U64Injective(v.caseBytes, w.caseBytes);
    U64Injective(v.sources.records, w.sources.records);
  }

  lemma CodesInjective(a: OutputContract, b: OutputContract, c: StdinClass, d: StdinClass, e: InputContract,
                       f: InputContract)
    requires OutputCode(a) == OutputCode(b) && StdinCode(c) == StdinCode(d) && InputCode(e) == InputCode(f)
    ensures a == b && c == d && e == f
  {
    assert |OutputCode(OpaqueArtifactOnly)| == 20 && |OutputCode(ExactIdentityNormalizer)| == 25;
    assert |StdinCode(PublicCase)| == 11 && |StdinCode(HermeticSyntheticFixture)| == 26;
    assert |InputCode(ByteExact)| == 10 && |InputCode(KnownNormalization)| == 41 && |InputCode(FullMembership)| == 37;
  }

  lemma TailDetermines(v: Invocation, w: Invocation)
    requires TailFields(v) == TailFields(w)
    ensures v.program.output == w.program.output && v.stdin == w.stdin && v.limits == w.limits && v.input == w.input
    ensures RevisionText(v.program.revision) == RevisionText(w.program.revision)
  {
    var f, g := TailFields(v), TailFields(w);
    assert f[0] == g[0] && f[1] == g[1] && f[2] == g[2] && f[3] == g[3] && f[9] == g[9];
    CodesInjective(v.program.output, w.program.output, v.stdin.class_, w.stdin.class_, v.input, w.input);
    assert f[4] == g[4] && f[5] == g[5] && f[6] == g[6] && f[7] == g[7] && f[8] == g[8];
    U64Injective(v.stdin.bytes, w.stdin.bytes);
    U64Injective(v.limits.stdin, w.limits.stdin);
    U64Injective(v.limits.stdout, w.limits.stdout);
    U64Injective(v.limits.stderr, w.limits.stderr);
    U64Injective(v.limits.wallNanos, w.limits.wallNanos);
  }

  lemma GroupProgram(p: Program, rest: seq<string>)
    ensures ProgramFields(p) + rest
         == Counted(p.argv) + ([p.cwd] + (Counted(p.environment.allowed) + (CountedPairs(p.environment.bindings)
             + rest)))
  {
    var allowed, bindings := Counted(p.environment.allowed), CountedPairs(p.environment.bindings);
    Regroup(Counted(p.argv), [p.cwd] + (allowed + bindings), rest);
    Regroup([p.cwd], allowed + bindings, rest);
    Regroup(allowed, bindings, rest);
  }

  ghost predicate CountsFit(p: Program) {
    |p.argv| <= U64_MAX && |p.environment.allowed| <= U64_MAX && |p.environment.bindings| <= U64_MAX
  }

  /** Where the argument list, the allow-list and the bindings end is part of what is bound. */
  lemma ProgramDetermines(p: Program, x: seq<string>, q: Program, y: seq<string>)
    requires CountsFit(p) && CountsFit(q) && ProgramFields(p) + x == ProgramFields(q) + y
    ensures p.argv == q.argv && p.cwd == q.cwd && p.environment == q.environment && x == y
  {
    GroupProgram(p, x);
    GroupProgram(q, y);
    var pb, qb := CountedPairs(p.environment.bindings) + x, CountedPairs(q.environment.bindings) + y;
    var pa, qa := Counted(p.environment.allowed) + pb, Counted(q.environment.allowed) + qb;
    CountedUnique(p.argv, [p.cwd] + pa, q.argv, [q.cwd] + qa);
    SameCut([p.cwd], pa, [q.cwd], qa);
    assert [p.cwd][0] == [q.cwd][0];
    CountedUnique(p.environment.allowed, pb, q.environment.allowed, qb);
    CountedPairsUnique(p.environment.bindings, x, q.environment.bindings, y);
  }

  /** The invocation as the digest sees it: an empty revision is no revision. */
  function Seen(v: Invocation): Invocation {
    if v.program.revision == Some("") then v.(program := v.program.(revision := None)) else v
  }

  /** Two invocations are hashed alike exactly when they differ at most in an empty against an absent revision. */
  lemma HashInputExact(v: Invocation, w: Invocation)
    requires Fits(v) && Fits(w)
    ensures HashInput(v) == HashInput(w) <==> Seen(v) == Seen(w)
  {
    if HashInput(v) == HashInput(w) {
      FieldsInjective(InvocationFields(v), InvocationFields(w));
      var x, y := ProgramFields(v.program) + TailFields(v), ProgramFields(w.program) + TailFields(w);
      SameCut(RunFields(v), CaseFields(v) + x, RunFields(w), CaseFields(w) + y);
      SameCut(CaseFields(v), x, CaseFields(w), y);
      RunDetermines(v, w);
      CaseDetermines(v, w);
      ProgramDetermines(v.program, TailFields(v), w.program, TailFields(w));
      TailDetermines(v, w);
    }
    if Seen(v) == Seen(w) {
      SeenFields(v);
      SeenFields(w);
    }
  }

  lemma SeenFields(v: Invocation)
    ensures InvocationFields(Seen(v)) == InvocationFields(v)
  {
    assert RunFields(Seen(v)) == RunFields(v) && CaseFields(Seen(v)) == CaseFields(v)
        && TailFields(Seen(v)) == TailFields(v);
    assert ProgramFields(Seen(v).program) == ProgramFields(v.program);
  }

  /** On programs that passed construction the hash input determines every bound field. */
  lemma HashInputInjective(v: Invocation, w: Invocation)
    requires Fits(v) && Fits(w) && ValidRevision(v.program.revision) && ValidRevision(w.program.revision)
    requires HashInput(v) == HashInput(w)
    ensures v == w
  {
    HashInputExact(v, w);
  }

  /** Only the constructor keeps an absent and an empty revision apart: unconstructed values collide. */
  lemma EmptyRevisionCollides(v: Invocation)
    ensures var absent := v.(program := v.program.(revision := None));
            var empty := v.(program := v.program.(revision := Some("")));
            absent != empty && HashInput(absent) == HashInput(empty) && !ValidRevision(empty.program.revision)
  {
    SeenFields(v.(program := v.program.(revision := Some(""))));
  }

  // ---- The hashed octets, field by field ------------------------------------------------------------------

  /** The fields before the arguments, each in its place. */
  ghost predicate RunInPlace(fs: seq<string>, v: Invocation) {
    && |fs| >= 20 && fs[0] == "evidentrail/bench-harness/subprocess-invocation/v1"
    && fs[1] == v.manifestDigest && fs[2] == U64(v.manifestBytes)
    && fs[3] == v.run.system && fs[4] == v.run.build && fs[5] == v.run.dataset && fs[6] == U64(v.run.seed)
    && fs[7] == U64(v.run.budget.events) && fs[8] == U64(v.run.budget.sourceBytes)
    && fs[9] == U64(v.run.budget.tokens) && fs[10] == U64(v.run.budget.wallNanos)
    && fs[11] == U64(v.run.budget.memoryBytes)
    && fs[12] == v.caseDigest && fs[13] == U64(v.caseBytes) && fs[14] == v.sources.digest
    && fs[15] == v.sources.receipt && fs[16] == U64(v.sources.records) && fs[17] == v.program.system
    && fs[18] == v.program.build && fs[19] == v.program.path
  }

  /** Arguments, directory and environment, from the first of their fields on. */
  ghost predicate ProgramInPlace(fs: seq<string>, p: Program) {
    var args, names, pairs := |p.argv|, |p.environment.allowed|, |p.environment.bindings|;
    && |fs| == 4 + args + names + 2 * pairs
    && fs[0] == U64(args) && (forall i :: 0 <= i < args ==> fs[1 + i] == p.argv[i])
    && fs[1 + args] == p.cwd
    && fs[2 + args] == U64(names) && (forall i :: 0 <= i < names ==> fs[3 + args + i] == p.environment.allowed[i])
    && fs[3 + args + names] == U64(pairs)
    && forall i :: 0 <= i < pairs ==>
         fs[4 + args + names + 2 * i] == p.environment.bindings[i].name
         && fs[5 + args + names + 2 * i] == p.environment.bindings[i].value
  }

  /** The last twelve fields. */
  ghost predicate TailInPlace(fs: seq<string>, v: Invocation) {
    && |fs| == 12
    && (fs[0] == "opaque_artifact_only" <==> v.program.output == OpaqueArtifactOnly)
    && (fs[0] == "exact_identity_normalizer" <==> v.program.output == ExactIdentityNormalizer)
    && fs[1] == (if v.program.revision == None then "" else v.program.revision.value)
    && (fs[2] == "public_case" <==> v.stdin.class_ == PublicCase)
    && (fs[2] == "hermetic_synthetic_fixture" <==> v.stdin.class_ == HermeticSyntheticFixture)
    && fs[3] == v.stdin.digest && fs[4] == U64(v.stdin.bytes)
    && fs[5] == U64(v.limits.stdin) && fs[6] == U64(v.limits.stdout) && fs[7] == U64(v.limits.stderr)
    && fs[8] == U64(v.limits.wallNanos)
    && (fs[9] == "byte_exact" <==> v.input == ByteExact)
    && (fs[9] == "legacy_drain_raw_text_known_normalization" <==> v.input == KnownNormalization)
    && (fs[9] == "legacy_drain_raw_text_full_membership" <==> v.input == FullMembership)
    && fs[10] == "single_declared_source_exact_artifact"
    && fs[11] == "canonical_public_case_artifact_and_source_exact_ledger"
  }

  /** The octets are fields, and everything the invocation binds is in its place among them. */
  ghost predicate ReadsAs(s: string, v: Invocation) {
    exists fs :: ReadFields(s, |fs|) == Some((fs, "")) && InPlace(fs, v)
  }

  ghost predicate InPlace(fs: seq<string>, v: Invocation) {
    && |fs| >= 32 && RunInPlace(fs[..20], v) && ProgramInPlace(fs[20..|fs| - 12], v.program)
    && TailInPlace(fs[|fs| - 12..], v)
  }

  lemma {:induction false} PairsAt(bs: seq<Binding>, i: nat)
    requires i < |bs|
    ensures Pairs(bs)[2 * i] == bs[i].name && Pairs(bs)[2 * i + 1] == bs[i].value
  {
    if i > 0 { PairsAt(bs[1..], i - 1); }
  }

  lemma ProgramPlaces(p: Program)
    ensures ProgramInPlace(ProgramFields(p), p)
  {
    var args, names, pairs := Counted(p.argv), Counted(p.environment.allowed), CountedPairs(p.environment.bindings);
    var fs := ProgramFields(p);
    assert fs[..|args|] == args && fs[|args|] == p.cwd;
    forall i | 0 <= i < |p.environment.bindings|
      ensures fs[|args| + 1 + |names| + 1 + 2 * i] == p.environment.bindings[i].name
      ensures fs[|args| + 1 + |names| + 2 + 2 * i] == p.environment.bindings[i].value
    {
      PairsAt(p.environment.bindings, i);
      assert pairs[1 + 2 * i] == Pairs(p.environment.bindings)[2 * i];
      assert pairs[2 + 2 * i] == Pairs(p.environment.bindings)[2 * i + 1];
    }
  }

  lemma CodesApart()
    ensures "opaque_artifact_only" != "exact_identity_normalizer" && "public_case" != "hermetic_synthetic_fixture"
    ensures "byte_exact" != "legacy_drain_raw_text_known_normalization"
    ensures "byte_exact" != "legacy_drain_raw_text_full_membership"
    ensures "legacy_drain_raw_text_known_normalization" != "legacy_drain_raw_text_full_membership"
  {
    assert "opaque_artifact_only"[0] != "exact_identity_normalizer"[0];
    assert "public_case"[0] != "hermetic_synthetic_fixture"[0];
    assert "byte_exact"[0] != "legacy_drain_raw_text_known_normalization"[0];
    assert "byte_exact"[0] != "legacy_drain_raw_text_full_membership"[0];
    assert "legacy_drain_raw_text_known_normalization"[22] != "legacy_drain_raw_text_full_membership"[22];
  }

  lemma TailPlaces(v: Invocation)
    ensures TailInPlace(TailFields(v), v)
  {
    CodesApart();
  }

  lemma FourthsCut(a: seq<string>, b: seq<string>, c: seq<string>, d: seq<string>)
    requires |a| == 12 && |b| == 8 && |d| == 12
    ensures var fs := a + (b + (c + d));
            |fs| >= 32 && fs[..20] == a + b && fs[20..|fs| - 12] == c && fs[|fs| - 12..] == d
  {
  }

  /** What is hashed can be read field by field, and every value is found where it belongs. */
  lemma HashInputReadsBack(v: Invocation)
    requires Fits(v)
    ensures ReadsAs(HashInput(v), v)
  {
    var fs := InvocationFields(v);
    FieldsReadBack(fs, "");
    assert Fields(fs) + "" == Fields(fs);
    AllInPlace(v);
  }

  lemma AllInPlace(v: Invocation)
    ensures InPlace(InvocationFields(v), v)
  {
    FourthsCut(RunFields(v), CaseFields(v), ProgramFields(v.program), TailFields(v));
    ProgramPlaces(v.program);
    TailPlaces(v);
    RunPlaces(v);
  }

  lemma RunPlaces(v: Invocation)
    ensures RunInPlace(RunFields(v) + CaseFields(v), v)
  {
  }
}
