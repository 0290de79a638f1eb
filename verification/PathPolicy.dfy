/** Canonical form of the reserved-path configuration and the octets its digest is taken over (internal_paths.rs). */
module PathPolicy {
  import opened Prelude
  import opened Octets
  import opened Ordering
  import opened UnixPaths

  const DIGEST_DOMAIN := "evidentrail/internal-path-policy/v1"
  const POLICY_VERSION: nat := 1
  const MAX_PREFIXES: nat := 1024
  const MAX_POLICY_BYTES: nat := 4 * 1024 * 1024

  datatype PolicyError = EmptyPolicy | TooManyPaths | PolicyTooLarge | DuplicatePath

  datatype Policy = Policy(roots: seq<CanonicalPath>, aliases: seq<CanonicalPath>, digest: string)

  function Bytes(p: CanonicalPath): string {
    p.bytes
  }

  function ByteCount(p: CanonicalPath): nat {
    |p.bytes|
  }

  /** Every value of the path type came out of the parser. */
  ghost predicate Parsed(ps: seq<CanonicalPath>) {
    forall p :: p in ps ==> IsCanonical(p.bytes) && p.components == Components(p.bytes)
  }

  predicate ContainsDuplicate(ps: seq<CanonicalPath>) {
    exists i :: 0 <= i < |ps| - 1 && ps[i] == ps[i + 1]
  }

  /** A path next to its equal in either sorted list, or a root that a binary search finds among the aliases. */
  predicate Clashes(roots: seq<CanonicalPath>, aliases: seq<CanonicalPath>)
    requires SortedBy(Bytes, aliases)
  {
    ContainsDuplicate(roots) || ContainsDuplicate(aliases) || exists root | root in roots :: Finds(Bytes, aliases, root)
  }

  /** `append_paths`: a count, then each path length-prefixed. */
  function AppendPaths(ps: seq<CanonicalPath>): string {
    U64(|ps|) + Fields(seq(|ps|, i requires 0 <= i < |ps| => ps[i].bytes))
  }

  /** The octets that `derive_policy_digest` feeds to the hash. */
  function DigestInput(roots: seq<CanonicalPath>, aliases: seq<CanonicalPath>): string {
    Field(DIGEST_DOMAIN) + Field(LittleEndian(POLICY_VERSION, 2) + AppendPaths(roots) + AppendPaths(aliases))
  }

  /** `collect_bounded_paths`. */
  method CollectBounded(paths: seq<CanonicalPath>) returns (r: Result<seq<CanonicalPath>, PolicyError>)
    ensures r == if |paths| <= MAX_PREFIXES then Ok(paths) else Err(TooManyPaths)
  {
    var collected: seq<CanonicalPath> := [];
    for i := 0 to |paths|
      invariant collected == paths[..i] && i <= MAX_PREFIXES
    {
      if |collected| == MAX_PREFIXES { return Err(TooManyPaths); }
      collected := collected + [paths[i]];
    }
    assert paths[..|paths|] == paths;
    return Ok(collected);
  }

  /** `InternalPathPolicyV1::new`; the hash is any function of its input octets. */
  method NewPolicy(hash: string -> string, roots: seq<CanonicalPath>, aliases: seq<CanonicalPath>)
    returns (r: Result<Policy, PolicyError>)
    ensures r == Build(hash, roots, aliases)
  {
    var collectedRoots := CollectBounded(roots);
    if collectedRoots.Err? { return Err(collectedRoots.error); }
    var collectedAliases := CollectBounded(aliases);
    if collectedAliases.Err? { return Err(collectedAliases.error); }
    var reservedRoots, reservedAliases := collectedRoots.value, collectedAliases.value;
    if |reservedRoots| + |reservedAliases| > MAX_PREFIXES { return Err(TooManyPaths); }
    var total := 0;
    var all := reservedRoots + reservedAliases;
    for i := 0 to |all|
      invariant total + SumBy(ByteCount, all[i..]) == SumBy(ByteCount, all)
    {
      assert all[i..][1..] == all[i + 1..];
      total := total + |all[i].bytes|;
    }
    if total > MAX_POLICY_BYTES { return Err(PolicyTooLarge); }
    if reservedRoots == [] && reservedAliases == [] { return Err(EmptyPolicy); }
    reservedRoots := Sort(Bytes, reservedRoots);
    reservedAliases := Sort(Bytes, reservedAliases);
    if Clashes(reservedRoots, reservedAliases) {
      return Err(DuplicatePath);
    }
    return Ok(Policy(reservedRoots, reservedAliases, hash(DigestInput(reservedRoots, reservedAliases))));
  }

  /** The constructor's verdict as a function of its arguments. */
  function Build(hash: string -> string, roots: seq<CanonicalPath>, aliases: seq<CanonicalPath>)
    : (r: Result<Policy, PolicyError>)
  {
    var sortedRoots, sortedAliases := Sort(Bytes, roots), Sort(Bytes, aliases);
    if |roots| + |aliases| > MAX_PREFIXES then Err(TooManyPaths)
    else if SumBy(ByteCount, roots + aliases) > MAX_POLICY_BYTES then Err(PolicyTooLarge)
    else if roots == [] && aliases == [] then Err(EmptyPolicy)
    else if Clashes(sortedRoots, sortedAliases) then Err(DuplicatePath)
    else Ok(Policy(sortedRoots, sortedAliases, hash(DigestInput(sortedRoots, sortedAliases))))
  }

  lemma ParsedIsKeyed(ps: seq<CanonicalPath>)
    requires Parsed(ps)
    ensures KeyedBy(Bytes, ps)
  {
    forall x, y | x in ps && y in ps && Bytes(x) == Bytes(y) ensures x == y {}
  }

  lemma ParsedIgnoresOrder(a: seq<CanonicalPath>, b: seq<CanonicalPath>)
    requires multiset(a) == multiset(b) && Parsed(a)
    ensures Parsed(b)
  {
    SameElements(a, b);
  }

  /** Construction does not depend on the order in which paths were listed. */
  lemma BuildIgnoresOrder(hash: string -> string, roots: seq<CanonicalPath>, aliases: seq<CanonicalPath>,
                          roots': seq<CanonicalPath>, aliases': seq<CanonicalPath>)
    requires Parsed(roots) && Parsed(aliases)
    requires multiset(roots) == multiset(roots') && multiset(aliases) == multiset(aliases')
    ensures Build(hash, roots, aliases) == Build(hash, roots', aliases')
  {
    ParsedIsKeyed(roots);
    ParsedIsKeyed(aliases);
    SortIgnoresOrder(Bytes, roots, roots');
    SortIgnoresOrder(Bytes, aliases, aliases');
    SameElements(roots, roots');
    SameElements(aliases, aliases');
    SumIgnoresOrder(ByteCount, roots + aliases, roots' + aliases');
  }

  /** Within the size bounds a configuration is refused exactly when some path is listed twice, in either list
      or across. */
  lemma BuildAcceptsDistinctPaths(hash: string -> string, roots: seq<CanonicalPath>, aliases: seq<CanonicalPath>)
    requires Parsed(roots) && Parsed(aliases) && |roots| + |aliases| <= MAX_PREFIXES
    requires SumBy(ByteCount, roots + aliases) <= MAX_POLICY_BYTES && roots + aliases != []
    ensures Build(hash, roots, aliases).Ok? <==> Distinct(roots + aliases)
    ensures Build(hash, roots, aliases).Err? ==> Build(hash, roots, aliases).error == DuplicatePath
  {
    ClashesExactly(roots, aliases);
  }

  /** The neighbour checks and the binary search together find every repetition, within a list and across. */
  lemma ClashesExactly(roots: seq<CanonicalPath>, aliases: seq<CanonicalPath>)
    requires Parsed(roots) && Parsed(aliases)
    ensures Clashes(Sort(Bytes, roots), Sort(Bytes, aliases)) <==> !Distinct(roots + aliases)
  {
    var sr, sa := Sort(Bytes, roots), Sort(Bytes, aliases);
    DuplicateCheckIsDistinctness(roots);
    DuplicateCheckIsDistinctness(aliases);
    SameElements(roots, sr);
    DistinctConcat(roots, aliases);
    forall root | root in sr ensures Finds(Bytes, sa, root) <==> root in aliases { FoundAmong(roots, aliases, root); }
  }

  lemma FoundAmong(roots: seq<CanonicalPath>, aliases: seq<CanonicalPath>, root: CanonicalPath)
    requires Parsed(roots) && Parsed(aliases) && root in roots
    ensures Finds(Bytes, Sort(Bytes, aliases), root) <==> root in aliases
  {
    var sa := Sort(Bytes, aliases);
    SameElements(aliases, sa);
    assert Parsed(roots + aliases);
    ParsedIsKeyed(roots + aliases);
    KeyedWithin(Bytes, roots + aliases, sa + [root]);
    FindsIsMembership(Bytes, sa, root);
  }

  lemma DuplicateCheckIsDistinctness(ps: seq<CanonicalPath>)
    requires Parsed(ps)
    ensures ContainsDuplicate(Sort(Bytes, ps)) <==> !Distinct(ps)
  {
    var sorted := Sort(Bytes, ps);
    ParsedIgnoresOrder(ps, sorted);
    ParsedIsKeyed(sorted);
    AdjacentSuffices(Bytes, sorted);
    DistinctIgnoresOrder(ps, sorted);
  }

  lemma DistinctConcat<T>(a: seq<T>, b: seq<T>)
    ensures Distinct(a + b) <==> Distinct(a) && Distinct(b) && !exists x :: x in a && x in b
  {
    var s := a + b;
    if Distinct(s) {
      forall i, j | 0 <= i < j < |a| ensures a[i] != a[j] { assert s[i] == a[i] && s[j] == a[j]; }
      forall i, j | 0 <= i < j < |b| ensures b[i] != b[j] { assert s[|a| + i] == b[i] && s[|a| + j] == b[j]; }
      forall x | x in a ensures x !in b {
        var i :| 0 <= i < |a| && a[i] == x;
        forall j | 0 <= j < |b| ensures b[j] != x { assert s[i] == x && s[|a| + j] == b[j]; }
      }
    } else {
      var i, j :| 0 <= i < j < |s| && s[i] == s[j];
      if i < |a| <= j {
        assert s[i] in a && s[j] in b;
      } else if |a| <= i {
        assert b[i - |a|] == b[j - |a|];
      }
    }
  }

  /** Equal digest inputs come only from equal policies. */
  lemma DigestInputInjective(r1: seq<CanonicalPath>, a1: seq<CanonicalPath>,
                             r2: seq<CanonicalPath>, a2: seq<CanonicalPath>)
    requires Parsed(r1) && Parsed(a1) && Parsed(r2) && Parsed(a2)
    requires |r1| <= MAX_PREFIXES && |a1| <= MAX_PREFIXES && |r2| <= MAX_PREFIXES && |a2| <= MAX_PREFIXES
    requires DigestInput(r1, a1) == DigestInput(r2, a2)
    ensures r1 == r2 && a1 == a2
  {
    var v := LittleEndian(POLICY_VERSION, 2);
    var b1, b2 := v + AppendPaths(r1) + AppendPaths(a1), v + AppendPaths(r2) + AppendPaths(a2);
    FieldUnique(DIGEST_DOMAIN, Field(b1), DIGEST_DOMAIN, Field(b2));
    SameCut(U64(|b1|), b1, U64(|b2|), b2);
    Regroup(v, AppendPaths(r1), AppendPaths(a1));
    Regroup(v, AppendPaths(r2), AppendPaths(a2));
    SameCut(v, AppendPaths(r1) + AppendPaths(a1), v, AppendPaths(r2) + AppendPaths(a2));
    PathListUnique(r1, AppendPaths(a1), r2, AppendPaths(a2));
    assert AppendPaths(a1) + "" == AppendPaths(a2) + "";
    PathListUnique(a1, "", a2, "");
  }

  lemma PathListUnique(ps: seq<CanonicalPath>, x: string, qs: seq<CanonicalPath>, y: string)
    requires Parsed(ps) && Parsed(qs) && |ps| <= MAX_PREFIXES && |qs| <= MAX_PREFIXES
    requires AppendPaths(ps) + x == AppendPaths(qs) + y
    ensures ps == qs && x == y
  {
    var fs := seq(|ps|, i requires 0 <= i < |ps| => ps[i].bytes);
    var gs := seq(|qs|, i requires 0 <= i < |qs| => qs[i].bytes);
    Regroup(U64(|ps|), Fields(fs), x);
    Regroup(U64(|qs|), Fields(gs), y);
    SameCut(U64(|ps|), Fields(fs) + x, U64(|qs|), Fields(gs) + y);
    U64Injective(|ps|, |qs|);
    CountedFieldsUnique(fs, x, gs, y);
    forall i | 0 <= i < |ps| ensures ps[i] == qs[i] {
      assert fs[i] == gs[i] && ps[i] in ps && qs[i] in qs;
    }
  }

  /** `rejects_locator`. */
  predicate Rejects(policy: Policy, l: Locator) {
    exists p | p in policy.roots + policy.aliases :: IsPrefixOfLocator(p, l)
  }

  /** A policy refuses exactly the locators whose byte path is, or lies below, a listed path. */
  lemma RejectsByBytePath(policy: Policy, l: Locator)
    requires Parsed(policy.roots + policy.aliases) && IsLocator(l)
    ensures Rejects(policy, l)
            <==> exists p :: p in policy.roots + policy.aliases
                   && (p.bytes == "/" || FullPath(l) == p.bytes || p.bytes + "/" <= FullPath(l))
  {
    forall p | p in policy.roots + policy.aliases
      ensures IsPrefixOfLocator(p, l)
              <==> p.bytes == "/" || FullPath(l) == p.bytes || p.bytes + "/" <= FullPath(l)
    {
      PrefixTestIsBytePrefix(p, l);
    }
  }

  // ---- The hashed octets read back ------------------------------------------------------------------------

  /** Reads the two path lists out of the hashed octets: domain, then version, roots and aliases in one field. */
  function ReadPolicy(s: string): Option<(seq<string>, seq<string>)> {
    var domain := ReadField(s);
    if domain.None? || domain.value.0 != "evidentrail/internal-path-policy/v1" then None else
    var body := ReadField(domain.value.1);
    if body.None? || body.value.1 != "" || |body.value.0| < 2 then None
    else ReadLists(body.value.0)
  }

  function ReadLists(body: string): Option<(seq<string>, seq<string>)>
    requires |body| >= 2
  {
    if body[0] as int != 1 || body[1] as int != 0 then None else
    var roots := ReadCounted(body[2..]);
    if roots.None? then None else
    var aliases := ReadCounted(roots.value.1);
    if aliases.None? || aliases.value.1 != "" then None else Some((roots.value.0, aliases.value.0))
  }

  ghost function BytesOf(ps: seq<CanonicalPath>): seq<string> {
    seq(|ps|, i requires 0 <= i < |ps| => ps[i].bytes)
  }

  lemma ListReadsBack(ps: seq<CanonicalPath>, rest: string)
    requires Parsed(ps) && |ps| <= MAX_PREFIXES
    ensures ReadCounted(AppendPaths(ps) + rest) == Some((BytesOf(ps), rest))
  {
    var fs := BytesOf(ps);
    forall i | 0 <= i < |fs| ensures Sized(fs[i]) { assert ps[i] in ps; }
    Regroup(U64(|ps|), Fields(fs), rest);
    CountedReadsBack(fs, rest);
  }

  lemma {:induction false} FieldsBounded(fs: seq<string>)
    requires forall i :: 0 <= i < |fs| ==> |fs[i]| <= 65_536
    ensures |Fields(fs)| <= 65_544 * |fs|
  {
    if fs != [] { FieldsBounded(fs[1..]); }
  }

  lemma ListBounded(ps: seq<CanonicalPath>)
    requires Parsed(ps) && |ps| <= MAX_PREFIXES
    ensures |AppendPaths(ps)| <= 8 + 1024 * 65_544
  {
    var fs := BytesOf(ps);
    forall i | 0 <= i < |fs| ensures |fs[i]| <= 65_536 { assert ps[i] in ps; }
    FieldsBounded(fs);
  }

  /** The hashed octets hold roots and aliases, each where it belongs. */
  lemma DigestReadsBack(roots: seq<CanonicalPath>, aliases: seq<CanonicalPath>)
    requires Parsed(roots) && Parsed(aliases) && |roots| <= MAX_PREFIXES && |aliases| <= MAX_PREFIXES
    ensures ReadPolicy(DigestInput(roots, aliases)) == Some((BytesOf(roots), BytesOf(aliases)))
  {
    var body := LittleEndian(POLICY_VERSION, 2) + AppendPaths(roots) + AppendPaths(aliases);
    ListBounded(roots);
    ListBounded(aliases);
    FieldReadsBack(DIGEST_DOMAIN, Field(body));
    FieldReadsBack(body, "");
    assert Field(body) + "" == Field(body);
    BodyReadsBack(roots, aliases);
  }

  lemma BodyReadsBack(roots: seq<CanonicalPath>, aliases: seq<CanonicalPath>)
    requires Parsed(roots) && Parsed(aliases) && |roots| <= MAX_PREFIXES && |aliases| <= MAX_PREFIXES
    ensures ReadLists(LittleEndian(POLICY_VERSION, 2) + AppendPaths(roots) + AppendPaths(aliases))
         == Some((BytesOf(roots), BytesOf(aliases)))
  {
    var version, lists := LittleEndian(POLICY_VERSION, 2), AppendPaths(roots) + AppendPaths(aliases);
    Regroup(version, AppendPaths(roots), AppendPaths(aliases));
    VersionOctets(version, lists);
    ListReadsBack(roots, AppendPaths(aliases));
    ListReadsBack(aliases, "");
    assert AppendPaths(aliases) + "" == AppendPaths(aliases);
  }

  lemma VersionOctets(version: string, rest: string)
    requires version == LittleEndian(1, 2)
    ensures (version + rest)[0] as int == 1 && (version + rest)[1] as int == 0 && (version + rest)[2..] == rest
  {
    assert LittleEndian(1, 2) == [1 as char] + LittleEndian(0, 1);
    assert LittleEndian(0, 1) == [0 as char] + LittleEndian(0, 0);
  }

  // ---- Which configurations make a policy -----------------------------------------------------------------

  ghost function TotalBytes(ps: seq<CanonicalPath>, n: nat): nat
    requires n <= |ps|
  {
    if n == 0 then 0 else TotalBytes(ps, n - 1) + |ps[n - 1].bytes|
  }

  lemma {:induction false} TotalBytesIsSum(ps: seq<CanonicalPath>, n: nat)
    requires n <= |ps|
    ensures SumBy(ByteCount, ps[..n]) == TotalBytes(ps, n)
  {
    if n > 0 {
      TotalBytesIsSum(ps, n - 1);
      assert ps[..n] == ps[..n - 1] + [ps[n - 1]];
      SumAppend(ByteCount, ps[..n - 1], ps[n - 1]);
    }
  }

  /** The same paths, in ascending order of their bytes. */
  ghost predicate Canonical(sorted: seq<CanonicalPath>, ps: seq<CanonicalPath>) {
    multiset(sorted) == multiset(ps) && forall i, j :: 0 <= i < j < |sorted| ==> Leq(sorted[i].bytes, sorted[j].bytes)
  }

  /** A policy is made of one to 1,024 different paths of at most four mebibytes; the error says what is wrong. */
  lemma BuildExactly(hash: string -> string, roots: seq<CanonicalPath>, aliases: seq<CanonicalPath>)
    requires Parsed(roots) && Parsed(aliases)
    ensures var r, all := Build(hash, roots, aliases), roots + aliases;
            && (r.Ok? <==> 1 <= |all| <= 1024 && TotalBytes(all, |all|) <= 4_194_304 && Distinct(all))
            && (r.Ok? ==> Canonical(r.value.roots, roots) && Canonical(r.value.aliases, aliases)
                          && r.value.digest == hash(DigestInput(r.value.roots, r.value.aliases)))
            && (r == Err(TooManyPaths) <==> |all| > 1024)
            && (r == Err(PolicyTooLarge) <==> |all| <= 1024 && TotalBytes(all, |all|) > 4_194_304)
            && (r == Err(EmptyPolicy) <==> |all| == 0)
  {
    var all := roots + aliases;
    TotalBytesIsSum(all, |all|);
    assert all[..|all|] == all;
    ClashesExactly(roots, aliases);
    SortedIsCanonical(roots);
    SortedIsCanonical(aliases);
  }

  lemma SortedIsCanonical(ps: seq<CanonicalPath>)
    ensures Canonical(Sort(Bytes, ps), ps)
  {
    var sorted := Sort(Bytes, ps);
    forall i, j | 0 <= i < j < |sorted| ensures Leq(sorted[i].bytes, sorted[j].bytes) {
      assert Leq(Bytes(sorted[i]), Bytes(sorted[j]));
    }
  }
}
