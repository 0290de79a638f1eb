/** Reading back what stands around the evidence of a compact view: its header lines and its coverage line. */
module ViewFrame {
  import opened Prelude
  import opened Octets
  import opened UnixPaths
  import opened CompactView

  /** What a view says besides its evidence. */
  datatype Frame = Frame(token: string, acquisition: Acquisition, acknowledged: nat, persisted: nat, coverage: Coverage)

  /** The text between a name with an opening parenthesis and the closing one. */
  function ReadEnclosed(s: string, name: string): Option<string> {
    var inner := Strip(s, name);
    if inner.None? || inner.value == "" || inner.value[|inner.value| - 1] != ')' then None
    else Some(inner.value[..|inner.value| - 1])
  }

  function ReadAcquisition(s: string): Option<Acquisition> {
    var complete := ReadEnclosed(s, "complete(");
    if complete.Some? then Some(Complete(complete.value)) else
    var partial := ReadEnclosed(s, "partial(");
    if partial.Some? then Some(Partial(if partial.value == "" then [] else Split(partial.value, ','))) else
    var unknown := ReadEnclosed(s, "unknown(");
    if unknown.Some? then Some(Unknown(unknown.value)) else None
  }

  /** Two counts with nothing behind them. */
  function ReadScope(s: string): Option<(nat, nat)> {
    var acknowledged := ReadNumbered(s, "scope acknowledged=");
    if acknowledged.None? then None else
    var persisted := ReadNumbered(acknowledged.value.1, " persisted=");
    if persisted.None? || persisted.value.1 != "" then None
    else Some((acknowledged.value.0, persisted.value.0))
  }

  function ReadCoverage(s: string): Option<Coverage> {
    var shown := ReadNumbered(s, "coverage shown=");
    if shown.None? then None else
    var pattern := ReadNumbered(shown.value.1, " pattern=");
    if pattern.None? then None else
    var retained := ReadNumbered(pattern.value.1, " retained=");
    if retained.None? then None else
    var exact := ReadNumbered(retained.value.1, " source_exact=");
    if exact.None? then None else
    var policy := ReadNumbered(exact.value.1, " post_policy=");
    if policy.None? then None else
    var omitted := ReadNumbered(policy.value.1, " policy_omitted=");
    if omitted.None? || omitted.value.1 != "" then None
    else Some(Coverage(shown.value.0, pattern.value.0, retained.value.0, exact.value.0, policy.value.0,
                       omitted.value.0))
  }

  function ReadFrame(header: seq<string>, last: string): Option<Frame> {
    if |header| != 7 || header[0] != "EVIDENTRAIL_AGENT_VIEW_V1" || header[2] != "untrusted_data=true"
       || header[4] != "selection=compiled" || header[6] != "evidence"
    then None else
    var token := Strip(header[1], "result=");
    if token.None? then None else
    var origin := Strip(header[3], "acquisition=");
    if origin.None? then None else
    var acquisition := ReadAcquisition(origin.value);
    if acquisition.None? then None else
    var scope := ReadScope(header[5]);
    if scope.None? then None else
    var coverage := ReadCoverage(last);
    if coverage.None? then None
    else Some(Frame(token.value, acquisition.value, scope.value.0, scope.value.1, coverage.value))
  }

  // ---- Reading back ---------------------------------------------------------------------------------------

  /** A closed code string. */
  predicate IsCode(s: string) {
    s != [] && ' ' !in s && '\n' !in s && ',' !in s
  }

  ghost predicate LegibleAcquisition(a: Acquisition) {
    match a
    case Complete(proof) => IsCode(proof)
    case Partial(reasons) => forall i :: 0 <= i < |reasons| ==> IsCode(reasons[i])
    case Unknown(reason) => IsCode(reason)
  }

  lemma EnclosedBack(name: string, inner: string)
    ensures ReadEnclosed(name + inner + ")", name) == Some(inner)
  {
    assert name + inner + ")" == name + (inner + ")");
    StripBack(name, inner + ")");
    assert (inner + ")")[..|inner|] == inner;
  }

  lemma NotEnclosed(s: string, name: string)
    requires s != "" && name != "" && s[0] != name[0]
    ensures ReadEnclosed(s, name).None?
  {
  }

  lemma AcquisitionReadsBack(a: Acquisition)
    requires LegibleAcquisition(a)
    ensures ReadAcquisition(AcquisitionText(a)) == Some(a)
  {
    var s := AcquisitionText(a);
    match a
    case Complete(proof) => EnclosedBack("complete(", proof);
    case Unknown(reason) =>
      assert s[0] == 'u';
      NotEnclosed(s, "complete(");
      NotEnclosed(s, "partial(");
      EnclosedBack("unknown(", reason);
    case Partial(reasons) =>
      assert s[0] == 'p';
      NotEnclosed(s, "complete(");
      EnclosedBack("partial(", Join(reasons, ','));
      ReasonsReadBack(reasons);
  }

  lemma ReasonsReadBack(reasons: seq<string>)
    requires forall i :: 0 <= i < |reasons| ==> IsCode(reasons[i])
    ensures (if Join(reasons, ',') == "" then [] else Split(Join(reasons, ','), ',')) == reasons
  {
    if reasons != [] {
      assert IsCode(reasons[0]);
      SplitJoin(reasons, ',');
    }
  }

  lemma ScopeReadsBack(acknowledged: nat, persisted: nat)
    ensures ReadScope("scope acknowledged=" + Decimal(acknowledged) + " persisted=" + Decimal(persisted))
         == Some((acknowledged, persisted))
  {
    var rest := " persisted=" + Decimal(persisted);
    TwoCounts("scope acknowledged=", Decimal(acknowledged), " persisted=", Decimal(persisted));
    ReadNumberedBack("scope acknowledged=", acknowledged, rest);
    ReadNumberedEnd(" persisted=", persisted);
  }

  lemma TwoCounts(a: string, b: string, c: string, d: string)
    ensures a + b + c + d == a + (b + (c + d))
  {
    Regroup(a + b, c, d);
    Regroup(a, b, c + d);
  }

  lemma CoverageReadsBack(c: Coverage)
    ensures ReadCoverage(CoverageLine(c)) == Some(c)
  {
    var omitted := " policy_omitted=" + Decimal(c.policyOmitted);
    var policy := " post_policy=" + (Decimal(c.postPolicy) + omitted);
    var exact := " source_exact=" + (Decimal(c.sourceExact) + policy);
    var retained := " retained=" + (Decimal(c.retained) + exact);
    var pattern := " pattern=" + (Decimal(c.pattern) + retained);
    SixCounts("coverage shown=", Decimal(c.shown), " pattern=", Decimal(c.pattern), " retained=", Decimal(c.retained),
              " source_exact=", Decimal(c.sourceExact), " post_policy=", Decimal(c.postPolicy),
              " policy_omitted=", Decimal(c.policyOmitted));
    ReadNumberedBack("coverage shown=", c.shown, pattern);
    ReadNumberedBack(" pattern=", c.pattern, retained);
    ReadNumberedBack(" retained=", c.retained, exact);
    ReadNumberedBack(" source_exact=", c.sourceExact, policy);
    ReadNumberedBack(" post_policy=", c.postPolicy, omitted);
    ReadNumberedEnd(" policy_omitted=", c.policyOmitted);
  }

  lemma SixCounts(a: string, b: string, c: string, d: string, e: string, f: string, g: string, h: string, i: string,
                  j: string, k: string, l: string)
    ensures a + b + c + d + e + f + g + h + i + j + k + l
         == a + (b + (c + (d + (e + (f + (g + (h + (i + (j + (k + l))))))))))
  {
    Regroup(a + b + c + d + e + f + g + h + i + j, k, l);
    Regroup(a + b + c + d + e + f + g + h + i, j, k + l);
    Regroup(a + b + c + d + e + f + g + h, i, j + (k + l));
    Regroup(a + b + c + d + e + f + g, h, i + (j + (k + l)));
    Regroup(a + b + c + d + e + f, g, h + (i + (j + (k + l))));
    Regroup(a + b + c + d + e, f, g + (h + (i + (j + (k + l)))));
    Regroup(a + b + c + d, e, f + (g + (h + (i + (j + (k + l))))));
    TwoCounts(a, b, c, d + (e + (f + (g + (h + (i + (j + (k + l))))))));
    Regroup(a + b + c, d, e + (f + (g + (h + (i + (j + (k + l)))))));
  }

  /** Header and coverage line read back as the brief has them. */
  lemma FrameReadsBack(b: Brief)
    requires LegibleAcquisition(b.acquisition)
    ensures ReadFrame(HeaderLines(b), CoverageLine(b.coverage))
         == Some(Frame(b.token, b.acquisition, b.acknowledged, b.persisted, b.coverage))
  {
    StripBack("result=", b.token);
    StripBack("acquisition=", AcquisitionText(b.acquisition));
    AcquisitionReadsBack(b.acquisition);
    ScopeReadsBack(b.acknowledged, b.persisted);
    CoverageReadsBack(b.coverage);
  }
}
