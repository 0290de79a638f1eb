/** Joining a plan to both registries, and what every interleaving of the two lock protocols keeps
    (authorization.rs). */
module Authorization {
  import opened Prelude
  import opened UnixPaths
  import BR = BindingRegistry
  import PR = InternalPathRegistry
  import opened PathPolicy

  type Session = nat
  type Time = BR.Time

  /** What a plan asks of its binding's terms. */
  datatype Request = Request(adapter: string, rootObject: string, policyVersion: nat, policyDigest: string,
                             runtimeProfile: string, snapshotMode: string, requestedOrdering: string,
                             declaredOrdering: string, caps: BR.Caps)

  /** What the authorizer reads of a verified plan; `policyDigest` is that of the internal paths. */
  datatype Plan = Plan(ref: BR.BindingRef, repository: BR.RepositoryId, createdAt: Time, executeBefore: Time,
                       proofExpiresAt: Option<Time>, locator: Locator, policyDigest: string, request: Request)

  datatype NarrowingError =
    | BindingNotYetValid | BindingExpired | BindingReferenceMismatch | RepositoryMismatch | AdapterMismatch
    | LocatorAuthorityMismatch | PolicyMismatch | PathPolicyMismatch | RuntimeProfileMismatch
    | AcquisitionSemanticsMismatch | CapWidening | TimeWidening

  datatype AuthError =
    | BindingStateUnavailable | BindingNotCurrent | BindingRepositoryMismatch | BindingRevoked
    | BindingOutsideValidity | BindingArtifactMismatch | PlanOutsideValidity | PlanDoesNotNarrowBinding
    | InternalPathStateUnavailable | InternalPathPolicyMismatch | CanonicalPathReserved | OpenedIdentityReserved

  function FromBindingRegistry(e: BR.Error): AuthError {
    match e
    case StateUnavailable => BindingStateUnavailable
    case RepositoryMismatch => BindingRepositoryMismatch
    case Revoked => BindingRevoked
    case NotYetValid | Expired => BindingOutsideValidity
    case AlreadyInstalled | NotFound | VersionNotAdvanced | ReferenceMismatch => BindingNotCurrent
  }

  function FromInternalPaths(e: PR.Error): AuthError {
    match e
    case PolicyDigestMismatch => InternalPathPolicyMismatch
    case CanonicalPathReserved => AuthError.CanonicalPathReserved
    case OpenedIdentityReserved => AuthError.OpenedIdentityReserved
    case StateUnavailable | IdentityRegistrationOverflow | IdentityNotRegistered => InternalPathStateUnavailable
  }

  predicate InValidity(plan: Plan, now: Time) {
    plan.createdAt <= now < plan.executeBefore && (plan.proofExpiresAt.Some? ==> now < plan.proofExpiresAt.value)
  }

  /** `caps_widen`. */
  predicate CapsWiden(plan: BR.Caps, maximum: BR.Caps) {
    plan.sourceBytes > maximum.sourceBytes || plan.records > maximum.records
    || plan.perRecordBytes > maximum.perRecordBytes || plan.wallTimeMillis > maximum.wallTimeMillis
  }

  /** `verify_local_file_plan_binding_narrowing_v1`: the first way in which the plan exceeds the binding. */
  function NarrowingVerdict(plan: Plan, b: BR.Binding, now: Time): (e: Option<NarrowingError>) {
    var q, t := plan.request, b.terms;
    if now < b.validFrom then Some(BindingNotYetValid)
    else if now >= b.expiresAt then Some(BindingExpired)
    else if plan.ref != b.ref then Some(BindingReferenceMismatch)
    else if plan.repository != b.repository then Some(RepositoryMismatch)
    else if q.adapter != t.adapter then Some(AdapterMismatch)
    else if plan.locator != t.locator || q.rootObject != t.rootObject then Some(LocatorAuthorityMismatch)
    else if q.policyVersion != t.policyVersion || q.policyDigest != t.policyDigest then Some(PolicyMismatch)
    else if plan.policyDigest != t.internalPathDigest then Some(PathPolicyMismatch)
    else if q.runtimeProfile != t.runtimeProfile then Some(RuntimeProfileMismatch)
    else if q.snapshotMode != t.snapshotMode || q.requestedOrdering != t.ordering || q.declaredOrdering != t.ordering
         then Some(AcquisitionSemanticsMismatch)
    else if CapsWiden(q.caps, t.maximum) then Some(CapWidening)
    else if plan.createdAt < b.validFrom || plan.executeBefore > b.expiresAt then Some(TimeWidening)
    else None
  }

  /** The plan asks for nothing that the binding does not approve. */
  ghost predicate Within(plan: Plan, b: BR.Binding) {
    && plan.ref == b.ref && plan.repository == b.repository && plan.locator == b.terms.locator
    && plan.policyDigest == b.terms.internalPathDigest
    && plan.request == Request(b.terms.adapter, b.terms.rootObject, b.terms.policyVersion, b.terms.policyDigest,
                               b.terms.runtimeProfile, b.terms.snapshotMode, b.terms.ordering, b.terms.ordering,
                               plan.request.caps)
    && plan.request.caps.sourceBytes <= b.terms.maximum.sourceBytes
    && plan.request.caps.records <= b.terms.maximum.records
    && plan.request.caps.perRecordBytes <= b.terms.maximum.perRecordBytes
    && plan.request.caps.wallTimeMillis <= b.terms.maximum.wallTimeMillis
    && b.validFrom <= plan.createdAt && plan.executeBefore <= b.expiresAt
  }

  /** Narrowing succeeds exactly for plans within their binding, checked while the binding is valid. */
  lemma NarrowingAccepts(plan: Plan, b: BR.Binding, now: Time)
    ensures NarrowingVerdict(plan, b, now).None? <==> Within(plan, b) && b.validFrom <= now < b.expiresAt
  {
  }

  /** First half: validity, the binding lease, the artifact comparison and the narrowing verdict. */
  function BeginResult(s: BR.State, plan: Plan, supplied: BR.Binding, now: Time)
    : (r: Result<BR.Binding, AuthError>)
  {
    if !InValidity(plan, now) then Err(PlanOutsideValidity) else
    match BR.Lease(s, plan.repository, plan.ref, now)
    case Err(e) => Err(FromBindingRegistry(e))
    case Ok(binding) =>
      if binding.canonical != supplied.canonical then Err(BindingArtifactMismatch)
      else if NarrowingVerdict(plan, binding, now).Some? then Err(PlanDoesNotNarrowBinding)
      else Ok(binding)
  }

  /** Second half: the internal-path lease. */
  function FinishResult(s: PR.State, plan: Plan): (r: Option<AuthError>) {
    match PR.LeaseFor(s, plan.locator, plan.policyDigest)
    case Done => None
    case Failed(e) => Some(FromInternalPaths(e))
  }

  /**
   * When a call is authorized, said of the fields of the two registries: the plan is in its time, its reference is the
   * one in force, the caller's artifact is that binding's own, the plan is within it, and the path policy is the
   * plan's and reserves nothing on the way to the locator.
   */
  ghost predicate MayAuthorize(bs: BR.State, ps: PR.State, plan: Plan, supplied: BR.Binding, now: Time) {
    && plan.createdAt <= now < plan.executeBefore
    && (plan.proofExpiresAt.Some? ==> now < plan.proofExpiresAt.value)
    && !bs.poisoned && plan.ref.id in bs.records
    && var record := bs.records[plan.ref.id];
    && record.repository == plan.repository && !record.revoked && record.binding.ref == plan.ref
    && record.binding.validFrom <= now < record.binding.expiresAt
    && record.binding.canonical == supplied.canonical
    && Within(plan, record.binding)
    && !ps.poisoned && ps.policy.digest == plan.policyDigest
    && forall p :: p in ps.policy.roots + ps.policy.aliases ==>
         !(p.components <= Components(plan.locator.root) + plan.locator.relative)
  }

  /** The two halves succeed together exactly then, and a refusal of the first half names a fault that is there. */
  lemma AuthorizedExactly(bs: BR.State, ps: PR.State, plan: Plan, supplied: BR.Binding, now: Time)
    ensures BeginResult(bs, plan, supplied, now).Ok? && FinishResult(ps, plan).None?
       <==> MayAuthorize(bs, ps, plan, supplied, now)
    ensures BeginResult(bs, plan, supplied, now).Ok? ==>
      plan.ref.id in bs.records && BeginResult(bs, plan, supplied, now).value == bs.records[plan.ref.id].binding
  {
    var first := BeginResult(bs, plan, supplied, now);
    BR.LeaseExactly(bs, plan.repository, plan.ref, now);
    PR.LeaseForExactly(ps, plan.locator, plan.policyDigest);
    if plan.ref.id in bs.records { NarrowingAccepts(plan, bs.records[plan.ref.id].binding, now); }
  }

  /** Every refusal names a fault that is there. */
  lemma RefusalsAreTrue(bs: BR.State, ps: PR.State, plan: Plan, supplied: BR.Binding, now: Time)
    ensures var r := BeginResult(bs, plan, supplied, now);
            && (r == Err(PlanOutsideValidity) ==>
                  now < plan.createdAt || plan.executeBefore <= now
                  || (plan.proofExpiresAt.Some? && plan.proofExpiresAt.value <= now))
            && (r == Err(BindingStateUnavailable) ==> bs.poisoned)
            && (r == Err(BindingNotCurrent) ==>
                  plan.ref.id !in bs.records || bs.records[plan.ref.id].binding.ref != plan.ref)
            && (r == Err(BindingRepositoryMismatch) ==> bs.records[plan.ref.id].repository != plan.repository)
            && (r == Err(BindingRevoked) ==> bs.records[plan.ref.id].revoked)
            && (r == Err(BindingOutsideValidity) ==>
                  now < bs.records[plan.ref.id].binding.validFrom || bs.records[plan.ref.id].binding.expiresAt <= now)
            && (r == Err(BindingArtifactMismatch) ==> bs.records[plan.ref.id].binding.canonical != supplied.canonical)
            && (r == Err(PlanDoesNotNarrowBinding) ==> !Within(plan, bs.records[plan.ref.id].binding))
    ensures FinishResult(ps, plan) == Some(InternalPathStateUnavailable) ==> ps.poisoned
    ensures FinishResult(ps, plan) == Some(InternalPathPolicyMismatch) ==> ps.policy.digest != plan.policyDigest
    ensures FinishResult(ps, plan) == Some(CanonicalPathReserved) ==> PR.Reserves(ps.policy, plan.locator)
  {
    BR.LeaseExactly(bs, plan.repository, plan.ref, now);
    PR.LeaseForExactly(ps, plan.locator, plan.policyDigest);
    if plan.ref.id in bs.records { NarrowingAccepts(plan, bs.records[plan.ref.id].binding, now); }
  }

  /** `authorize_local_file_plan_with_registries_v1`. Both guards stay held exactly on success; a failure after
      the first lease gives that lease back. */
  method Authorize(plan: Plan, supplied: BR.Binding, bindings: BR.LiveApprovedBindingRegistry,
                   paths: PR.InternalPathRegistry, now: Time)
    returns (r: Result<BR.Binding, AuthError>)
    modifies bindings`readers, paths`readers
    ensures var first := BeginResult(bindings.Current(), plan, supplied, now);
            var second := FinishResult(paths.Current(), plan);
            r == if first.Ok? && second.Some? then Err(second.value) else first
    ensures r.Ok? <==> MayAuthorize(bindings.Current(), paths.Current(), plan, supplied, now)
    ensures r.Ok? ==> r.value == bindings.records[plan.ref.id].binding
    ensures bindings.readers == old(bindings.readers) + if r.Ok? then 1 else 0
    ensures paths.readers == old(paths.readers) + if r.Ok? then 1 else 0
  {
    AuthorizedExactly(bindings.Current(), paths.Current(), plan, supplied, now);
    if !InValidity(plan, now) { return Err(PlanOutsideValidity); }
    var lease := bindings.ReadLease(plan.repository, plan.ref, now);
    if lease.Err? { return Err(FromBindingRegistry(lease.error)); }
    if lease.value.canonical != supplied.canonical {
      bindings.DropLease();
      return Err(BindingArtifactMismatch);
    }
    if NarrowingVerdict(plan, lease.value, now).Some? {
      bindings.DropLease();
      return Err(PlanDoesNotNarrowBinding);
    }
    var o := paths.ReadLeaseForLocator(plan.locator, plan.policyDigest);
    if o.Failed? {
      bindings.DropLease();
      return Err(FromInternalPaths(o.error));
    }
    return Ok(lease.value);
  }

  // ---- The step machine -----------------------------------------------------------------------------------

  /** Guards held by one authorization call: the binding guard, and on success the path guard too. */
  datatype Held = Held(plan: Plan, supplied: BR.Binding, binding: BR.Binding, checkedAt: Time, both: bool)

  /** Shared state: what each lock protects, how many read guards each lock has given out, and who holds them. */
  datatype World = World(bindings: BR.State, paths: PR.State, bindingReaders: int, pathReaders: int,
                         held: map<Session, Held>)

  datatype Event =
    | BindingWrite(bw: BR.Write) | PathWrite(pw: PR.Write)
    | PoisonBindings | PoisonPaths
    | Begin(session: Session, plan: Plan, supplied: BR.Binding, now: Time)
    | Finish(session: Session)
    | Drop(session: Session)

  function Start(policy: Policy): World {
    World(BR.INITIAL, PR.Start(policy), 0, 0, map[])
  }

  /** A writer proceeds only when its lock has no reader; the three call steps follow each other. */
  predicate Enabled(w: World, e: Event) {
    match e
    case BindingWrite(_) => w.bindingReaders == 0
    case PoisonBindings => w.bindingReaders == 0
    case PathWrite(_) => w.pathReaders == 0
    case PoisonPaths => w.pathReaders == 0
    case Begin(t, _, _, _) => t !in w.held
    case Finish(t) => t in w.held && !w.held[t].both
    case Drop(t) => t in w.held && w.held[t].both
  }

  function Step(w: World, e: Event): World
    requires Enabled(w, e)
  {
    match e
    case BindingWrite(bw) => w.(bindings := BR.Apply(w.bindings, bw))
    case PathWrite(pw) => w.(paths := PR.Apply(w.paths, pw))
    case PoisonBindings => w.(bindings := w.bindings.(poisoned := true))
    case PoisonPaths => w.(paths := w.paths.(poisoned := true))
    case Begin(t, plan, supplied, now) =>
      (match BeginResult(w.bindings, plan, supplied, now)
       case Err(_) => w
       case Ok(binding) => w.(held := w.held[t := Held(plan, supplied, binding, now, false)],
                              bindingReaders := w.bindingReaders + 1))
    case Finish(t) =>
      if FinishResult(w.paths, w.held[t].plan).Some?
      then w.(held := w.held - {t}, bindingReaders := w.bindingReaders - 1)
      else w.(held := w.held[t := w.held[t].(both := true)], pathReaders := w.pathReaders + 1)
    case Drop(t) =>
      w.(held := w.held - {t}, bindingReaders := w.bindingReaders - 1, pathReaders := w.pathReaders - 1)
  }

  /** `es` is a run: every event was enabled when it happened. */
  predicate IsRun(w: World, es: seq<Event>)
    decreases |es|, 0
  {
    es == [] || (IsRun(w, es[..|es| - 1]) && Enabled(After(w, es[..|es| - 1]), es[|es| - 1]))
  }

  function After(w: World, es: seq<Event>): World
    requires IsRun(w, es)
    decreases |es|, 1
  {
    if es == [] then w else Step(After(w, es[..|es| - 1]), es[|es| - 1])
  }

  lemma {:induction false} RunPrefix(w: World, es: seq<Event>, i: nat)
    requires IsRun(w, es) && i <= |es|
    ensures IsRun(w, es[..i])
    ensures i < |es| ==> Enabled(After(w, es[..i]), es[i])
    decreases |es|
  {
    if i == |es| {
      assert es[..i] == es;
    } else if i < |es| - 1 {
      RunPrefix(w, es[..|es| - 1], i);
      assert es[..|es| - 1][..i] == es[..i];
    }
  }

  // ---- What every step keeps ------------------------------------------------------------------------------

  ghost function PathHolders(held: map<Session, Held>): set<Session> {
    set t | t in held && held[t].both
  }

  /** What one holder's guards still prove about the shared state. */
  ghost predicate HolderIsRight(bindings: BR.State, paths: PR.State, h: Held) {
    && !bindings.poisoned
    && h.binding.ref == h.plan.ref && h.plan.ref.id in bindings.records
    && bindings.records[h.plan.ref.id] == BR.Record(h.plan.repository, h.binding, false)
    && InValidity(h.plan, h.checkedAt) && h.binding.validFrom <= h.checkedAt < h.binding.expiresAt
    && Within(h.plan, h.binding) && h.binding.canonical == h.supplied.canonical
    && (h.both ==> && !paths.poisoned
                   && paths.policy.digest == h.plan.policyDigest
                   && !Rejects(paths.policy, h.plan.locator))
  }

  ghost predicate Inv(w: World) {
    && w.bindingReaders == |w.held|
    && w.pathReaders == |PathHolders(w.held)|
    && (forall t :: t in w.held ==> HolderIsRight(w.bindings, w.paths, w.held[t]))
    && PR.CountsPositive(w.paths)
  }

  lemma ReadersPresent(w: World)
    requires w.bindingReaders == |w.held| && w.pathReaders == |PathHolders(w.held)|
    ensures w.bindingReaders == 0 ==> w.held == map[]
    ensures w.pathReaders == 0 ==> forall t :: t in w.held ==> !w.held[t].both
  {
    if w.bindingReaders == 0 { assert w.held.Keys == {}; }
    forall t | t in w.held && w.held[t].both ensures w.pathReaders > 0 { assert t in PathHolders(w.held); }
  }

  lemma HeldGrows(held: map<Session, Held>, t: Session, h: Held)
    requires t !in held
    ensures |held[t := h]| == |held| + 1
    ensures PathHolders(held[t := h]) == PathHolders(held) + if h.both then {t} else {}
  {
    assert held[t := h].Keys == held.Keys + {t};
  }

  lemma HeldShrinks(held: map<Session, Held>, t: Session)
    requires t in held
    ensures |held - {t}| == |held| - 1
    ensures PathHolders(held - {t}) == PathHolders(held) - {t}
  {
    assert (held - {t}).Keys == held.Keys - {t};
  }

  lemma HeldAdvances(held: map<Session, Held>, t: Session)
    requires t in held && !held[t].both
    ensures |held[t := held[t].(both := true)]| == |held|
    ensures PathHolders(held[t := held[t].(both := true)]) == PathHolders(held) + {t}
    ensures t !in PathHolders(held)
  {
    assert held[t := held[t].(both := true)].Keys == held.Keys;
  }

  lemma WriteKeepsInv(w: World, e: Event)
    requires Inv(w) && Enabled(w, e) && (e.BindingWrite? || e.PoisonBindings? || e.PathWrite? || e.PoisonPaths?)
    ensures Inv(Step(w, e))
  {
    ReadersPresent(w);
  }

  lemma BeginKeepsInv(w: World, e: Event)
    requires Inv(w) && Enabled(w, e) && e.Begin?
    ensures Inv(Step(w, e))
  {
    var r := BeginResult(w.bindings, e.plan, e.supplied, e.now);
    if r.Ok? {
      BegunIsRight(w.bindings, w.paths, e.plan, e.supplied, e.now);
      HolderJoins(w, e.session, Held(e.plan, e.supplied, r.value, e.now, false));
    }
  }

  lemma HolderJoins(w: World, t: Session, h: Held)
    requires Inv(w) && t !in w.held && !h.both && HolderIsRight(w.bindings, w.paths, h)
    ensures Inv(w.(held := w.held[t := h], bindingReaders := w.bindingReaders + 1))
  {
    HeldGrows(w.held, t, h);
  }

  lemma BegunIsRight(bindings: BR.State, paths: PR.State, plan: Plan, supplied: BR.Binding, now: Time)
    requires BeginResult(bindings, plan, supplied, now).Ok?
    ensures var binding := BeginResult(bindings, plan, supplied, now).value;
            HolderIsRight(bindings, paths, Held(plan, supplied, binding, now, false))
  {
    NarrowingAccepts(plan, BeginResult(bindings, plan, supplied, now).value, now);
  }

  lemma FinishKeepsInv(w: World, e: Event)
    requires Inv(w) && Enabled(w, e) && e.Finish?
    ensures Inv(Step(w, e))
  {
    if FinishResult(w.paths, w.held[e.session].plan).Some? {
      FailedFinishKeepsInv(w, e.session);
    } else {
      TokenKeepsInv(w, e.session);
    }
  }

  lemma FailedFinishKeepsInv(w: World, t: Session)
    requires Inv(w) && t in w.held && !w.held[t].both
    ensures Inv(w.(held := w.held - {t}, bindingReaders := w.bindingReaders - 1))
  {
    HeldShrinks(w.held, t);
  }

  lemma TokenKeepsInv(w: World, t: Session)
    requires Inv(w) && t in w.held && !w.held[t].both && FinishResult(w.paths, w.held[t].plan).None?
    ensures Inv(w.(held := w.held[t := w.held[t].(both := true)], pathReaders := w.pathReaders + 1))
  {
    HeldAdvances(w.held, t);
  }

  lemma DropKeepsInv(w: World, e: Event)
    requires Inv(w) && Enabled(w, e) && e.Drop?
    ensures Inv(Step(w, e))
  {
    HeldShrinks(w.held, e.session);
    assert e.session in PathHolders(w.held);
  }

  lemma StepKeepsInv(w: World, e: Event)
    requires Inv(w) && Enabled(w, e)
    ensures Inv(Step(w, e))
  {
    match e
    case Begin(_, _, _, _) => BeginKeepsInv(w, e);
    case Finish(_) => FinishKeepsInv(w, e);
    case Drop(_) => DropKeepsInv(w, e);
    case _ => WriteKeepsInv(w, e);
  }

  lemma {:induction false} RunKeepsInv(policy: Policy, es: seq<Event>)
    requires IsRun(Start(policy), es)
    ensures Inv(After(Start(policy), es))
    decreases |es|
  {
    if es != [] {
      RunKeepsInv(policy, es[..|es| - 1]);
      StepKeepsInv(After(Start(policy), es[..|es| - 1]), es[|es| - 1]);
    } else {
      assert PathHolders(map[]) == {};
    }
  }

  /** What one event changes in the number of times an identity is registered. */
  function Change(paths: PR.State, e: Event, id: PR.Identity): int {
    if !e.PathWrite? || !PR.Succeeds(paths, e.pw) then 0
    else if e.pw == PR.Register(id) then 1
    else if e.pw == PR.Unregister(id) then -1
    else 0
  }

  /** Successful registrations of an identity in a run, less its successful unregistrations. */
  function Balance(w: World, es: seq<Event>, id: PR.Identity): int
    requires IsRun(w, es)
    decreases |es|
  {
    if es == [] then 0
    else Balance(w, es[..|es| - 1], id) + Change(After(w, es[..|es| - 1]).paths, es[|es| - 1], id)
  }

  lemma CountChanges(w: World, e: Event, id: PR.Identity)
    requires PR.CountsPositive(w.paths) && Enabled(w, e)
    ensures PR.CountOf(Step(w, e).paths, id) == PR.CountOf(w.paths, id) + Change(w.paths, e, id)
  {
    if e.PathWrite? {
      PR.WriteExactly(w.paths, e.pw);
      if PR.Succeeds(w.paths, e.pw) { PR.WriteTakesEffect(w.paths, e.pw, id); }
    }
  }

  lemma {:induction false} CountsAreBalances(policy: Policy, es: seq<Event>, id: PR.Identity)
    requires IsRun(Start(policy), es)
    ensures Balance(Start(policy), es, id) == PR.CountOf(After(Start(policy), es).paths, id)
    decreases |es|
  {
    if es != [] {
      var before := es[..|es| - 1];
      CountsAreBalances(policy, before, id);
      RunKeepsInv(policy, before);
      CountChanges(After(Start(policy), before), es[|es| - 1], id);
    }
  }

  /** Main theorem. In every interleaving, whoever holds a token holds it over a binding that is current and
      unrevoked, under the policy its plan names, for a locator that policy does not reserve; and an opened
      identity is refused exactly when its registrations outnumber its unregistrations so far. */
  lemma TokenStaysTrue(policy: Policy, es: seq<Event>, t: Session, id: PR.Identity)
    requires IsRun(Start(policy), es)
    requires t in After(Start(policy), es).held && After(Start(policy), es).held[t].both
    ensures var w := After(Start(policy), es); var h := w.held[t];
            && BR.Lease(w.bindings, h.plan.repository, h.plan.ref, h.checkedAt) == Ok(h.binding)
            && MayAuthorize(w.bindings, w.paths, h.plan, h.supplied, h.checkedAt)
            && w.bindings.records[h.plan.ref.id] == BR.Record(h.plan.repository, h.binding, false)
            && h.binding.canonical == h.supplied.canonical
            && (PR.CheckOpened(w.paths, id).Failed? <==> Balance(Start(policy), es, id) > 0)
  {
    RunKeepsInv(policy, es);
    CountsAreBalances(policy, es, id);
    var w := After(Start(policy), es);
    PR.RejectsReserved(w.paths.policy, w.held[t].plan.locator);
  }

  /** In any state, a call that may be authorized gets its token in its two steps, whatever else is held. */
  lemma TokenIsGranted(w: World, t: Session, plan: Plan, supplied: BR.Binding, now: Time)
    requires t !in w.held && MayAuthorize(w.bindings, w.paths, plan, supplied, now)
    ensures var begun := Step(w, Begin(t, plan, supplied, now));
            && Enabled(begun, Finish(t))
            && var done := Step(begun, Finish(t));
            && done.held == w.held[t := Held(plan, supplied, w.bindings.records[plan.ref.id].binding, now, true)]
            && done.bindings == w.bindings && done.paths == w.paths
            && done.bindingReaders == w.bindingReaders + 1 && done.pathReaders == w.pathReaders + 1
  {
    AuthorizedExactly(w.bindings, w.paths, plan, supplied, now);
  }

  /** Every policy of the run was built from parsed paths. */
  ghost predicate ParsedPolicies(policy: Policy, es: seq<Event>) {
    && Parsed(policy.roots + policy.aliases)
    && forall i :: 0 <= i < |es| && es[i].PathWrite? && es[i].pw.ReplacePolicy? ==>
         Parsed(es[i].pw.policy.roots + es[i].pw.policy.aliases)
  }

  lemma {:induction false} PolicyStaysParsed(policy: Policy, es: seq<Event>)
    requires IsRun(Start(policy), es) && ParsedPolicies(policy, es)
    ensures var now := After(Start(policy), es).paths.policy; Parsed(now.roots + now.aliases)
    decreases |es|
  {
    if es != [] {
      var before := es[..|es| - 1];
      forall i | 0 <= i < |before| ensures before[i] == es[i] {}
      PolicyStaysParsed(policy, before);
    }
  }

  /** While a token is held its locator's byte path is neither a reserved path nor below one, octet for octet. */
  lemma TokenAvoidsReservedBytes(policy: Policy, es: seq<Event>, t: Session)
    requires IsRun(Start(policy), es) && ParsedPolicies(policy, es)
    requires t in After(Start(policy), es).held && After(Start(policy), es).held[t].both
    requires IsLocator(After(Start(policy), es).held[t].plan.locator)
    ensures var w := After(Start(policy), es); var path := FullPath(w.held[t].plan.locator);
            forall p :: p in w.paths.policy.roots + w.paths.policy.aliases ==>
              p.bytes != "/" && path != p.bytes && !(p.bytes + "/" <= path)
  {
    var w := After(Start(policy), es);
    RunKeepsInv(policy, es);
    PolicyStaysParsed(policy, es);
    RejectsByBytePath(w.paths.policy, w.held[t].plan.locator);
  }

  /** From the moment a token exists until its drop, neither registry changes at all. */
  lemma {:induction false} TokenFreezesRegistries(policy: Policy, es: seq<Event>, i: nat, t: Session)
    requires IsRun(Start(policy), es) && i <= |es| && IsRun(Start(policy), es[..i])
    requires t in After(Start(policy), es[..i]).held && After(Start(policy), es[..i]).held[t].both
    requires forall k :: i <= k < |es| ==> es[k] != Drop(t)
    ensures var a, b := After(Start(policy), es[..i]), After(Start(policy), es);
            b.bindings == a.bindings && b.paths == a.paths && t in b.held && b.held[t] == a.held[t]
    decreases |es|
  {
    if i == |es| {
      assert es[..i] == es;
    } else {
      var before := es[..|es| - 1];
      assert before[..i] == es[..i];
      forall k | i <= k < |before| ensures before[k] != Drop(t) { assert before[k] == es[k]; }
      TokenFreezesRegistries(policy, before, i, t);
      RunKeepsInv(policy, before);
      ReadersPresent(After(Start(policy), before));
    }
  }

  /** What a step that fails its call leaves: nothing of that call. */
  ghost predicate GivesBack(before: World, e: Event, after: World)
    requires Enabled(before, e)
  {
    && (e.Begin? && BeginResult(before.bindings, e.plan, e.supplied, e.now).Err? ==> after == before)
    && (e.Finish? && FinishResult(before.paths, before.held[e.session].plan).Some? ==>
          && e.session !in after.held
          && after.bindingReaders == before.bindingReaders - 1 && after.pathReaders == before.pathReaders)
  }

  lemma FailingStepGivesBack(w: World, e: Event)
    requires Enabled(w, e)
    ensures GivesBack(w, e, Step(w, e))
  {
  }

  lemma NobodyHoldsNothingRead(w: World)
    requires Inv(w) && w.held == map[]
    ensures w.bindingReaders == 0 && w.pathReaders == 0
  {
    assert PathHolders(map[]) == {};
  }

  /** Guards are accounted for exactly: a failed call leaves none, and with no call in flight writers may run. */
  lemma FailedCallHoldsNothing(policy: Policy, es: seq<Event>)
    requires IsRun(Start(policy), es) && es != []
    ensures GivesBack(After(Start(policy), es[..|es| - 1]), es[|es| - 1], After(Start(policy), es))
    ensures After(Start(policy), es).bindingReaders == |After(Start(policy), es).held|
    ensures After(Start(policy), es).held == map[] ==>
              After(Start(policy), es).bindingReaders == 0 && After(Start(policy), es).pathReaders == 0
  {
    RunKeepsInv(policy, es);
    FailingStepGivesBack(After(Start(policy), es[..|es| - 1]), es[|es| - 1]);
    if After(Start(policy), es).held == map[] { NobodyHoldsNothingRead(After(Start(policy), es)); }
  }

  lemma {:induction false} BindingsEvolve(w: World, es: seq<Event>, i: nat)
    requires IsRun(w, es) && i <= |es| && IsRun(w, es[..i])
    ensures BR.Evolves(After(w, es[..i]).bindings, After(w, es).bindings)
    decreases |es|
  {
    if i == |es| {
      assert es[..i] == es;
    } else {
      var before := es[..|es| - 1];
      assert before[..i] == es[..i];
      BindingsEvolve(w, before, i);
      StepEvolves(After(w, before), es[|es| - 1]);
      EvolvesOnward(After(w, es[..i]).bindings, After(w, before).bindings, After(w, es).bindings);
    }
  }

  lemma StepEvolves(w: World, e: Event)
    requires Enabled(w, e)
    ensures BR.Evolves(w.bindings, Step(w, e).bindings)
  {
  }

  lemma EvolvesOnward(a: BR.State, b: BR.State, c: BR.State)
    requires BR.Evolves(a, b) && BR.Evolves(b, c)
    ensures BR.Evolves(a, c)
  {
  }

  /** Over every run: a call for a reference that has been revoked or superseded cannot pass its first half again,
      and a later call for the same lineage can only with a strictly higher version. */
  lemma RetiredReferenceNeverAuthorized(policy: Policy, es: seq<Event>, i: nat, ref: BR.BindingRef,
                                        plan: Plan, supplied: BR.Binding, now: Time)
    requires IsRun(Start(policy), es) && i < |es| && IsRun(Start(policy), es[..i]) && es[i].BindingWrite?
    requires BR.Retires(After(Start(policy), es[..i]).bindings, es[i].bw, ref)
    requires plan.ref.id == ref.id
    ensures BeginResult(After(Start(policy), es).bindings, plan, supplied, now).Ok? ==>
              plan.ref != ref && ref.version < plan.ref.version
  {
    RunPrefix(Start(policy), es, i + 1);
    assert es[..i + 1][..i] == es[..i];
    BindingsEvolve(Start(policy), es, i + 1);
  }
}
