/** The live registry of approved bindings: versioned, revocable, never forgetting (binding_registry.rs). */
module BindingRegistry {
  import opened Prelude
  import opened UnixPaths

  type BindingId = nat
  type RepositoryId = nat
  type Time = int

  /** Identity of one approved artifact: the lineage, its version and the artifact digest. */
  datatype BindingRef = BindingRef(id: BindingId, version: nat, digest: nat)

  /** The sizes and the time that an acquisition may take. */
  datatype Caps = Caps(sourceBytes: nat, records: nat, perRecordBytes: nat, wallTimeMillis: nat)

  /** What a binding approves. */
  datatype Terms = Terms(adapter: string, locator: Locator, rootObject: string, policyVersion: nat,
                         policyDigest: string, internalPathDigest: string, runtimeProfile: string,
                         snapshotMode: string, ordering: string, maximum: Caps)

  /** A verified binding artifact; `canonical` stands for its canonical bytes. */
  datatype Binding = Binding(ref: BindingRef, repository: RepositoryId,
                             validFrom: Time, expiresAt: Time, terms: Terms, canonical: nat)

  datatype Record = Record(repository: RepositoryId, binding: Binding, revoked: bool)

  datatype Error =
    | StateUnavailable | AlreadyInstalled | NotFound | RepositoryMismatch | VersionNotAdvanced
    | ReferenceMismatch | Revoked | NotYetValid | Expired

  datatype Outcome = Done | Failed(error: Error)

  /** What the lock protects, with the lock's own sticky poison flag. */
  datatype State = State(records: map<BindingId, Record>, poisoned: bool)

  /** The three operations that need the write half of the lock. */
  datatype Write = Install(binding: Binding) | Replace(binding: Binding)
                 | Revoke(repository: RepositoryId, ref: BindingRef)
  {
    /** The lineage that the operation addresses. */
    function Id(): BindingId {
      match this
      case Install(b) => b.ref.id
      case Replace(b) => b.ref.id
      case Revoke(_, ref) => ref.id
    }
  }

  const INITIAL := State(map[], false)

  function Verdict(s: State, w: Write): (o: Outcome) {
    if s.poisoned then Failed(StateUnavailable) else
    match w
    case Install(b) =>
      if b.ref.id !in s.records then Done
      else if s.records[b.ref.id].repository != b.repository then Failed(RepositoryMismatch)
      else Failed(AlreadyInstalled)
    case Replace(b) =>
      if b.ref.id !in s.records then Failed(NotFound)
      else if s.records[b.ref.id].repository != b.repository then Failed(RepositoryMismatch)
      else if b.ref.version <= s.records[b.ref.id].binding.ref.version then Failed(VersionNotAdvanced)
      else Done
    case Revoke(repository, ref) =>
      if ref.id !in s.records then Failed(NotFound)
      else if s.records[ref.id].repository != repository then Failed(RepositoryMismatch)
      else if s.records[ref.id].binding.ref != ref then Failed(ReferenceMismatch)
      else if s.records[ref.id].revoked then Failed(Revoked)
      else Done
  }

  /** Every refusal of a write names a fault that is there. */
  lemma WriteRefusalsAreTrue(s: State, w: Write)
    ensures Verdict(s, w) == Failed(StateUnavailable) <==> s.poisoned
    ensures Verdict(s, w) == Failed(NotFound) ==> !w.Install? && w.Id() !in s.records
    ensures Verdict(s, w) == Failed(AlreadyInstalled) ==> w.Install? && w.binding.ref.id in s.records
    ensures Verdict(s, w) == Failed(RepositoryMismatch) ==>
      w.Id() in s.records
      && s.records[w.Id()].repository != if w.Revoke? then w.repository else w.binding.repository
    ensures Verdict(s, w) == Failed(VersionNotAdvanced) ==>
      w.Replace? && w.binding.ref.id in s.records
      && w.binding.ref.version <= s.records[w.binding.ref.id].binding.ref.version
    ensures Verdict(s, w) == Failed(ReferenceMismatch) ==>
      w.Revoke? && w.ref.id in s.records && s.records[w.ref.id].binding.ref != w.ref
    ensures Verdict(s, w) == Failed(Revoked) ==>
      w.Revoke? && w.ref.id in s.records && s.records[w.ref.id].revoked
  {
  }

  function Apply(s: State, w: Write): State {
    if Verdict(s, w) != Done then s else
    match w
    case Install(b) => s.(records := s.records[b.ref.id := Record(b.repository, b, false)])
    case Replace(b) => s.(records := s.records[b.ref.id := s.records[b.ref.id].(binding := b, revoked := false)])
    case Revoke(_, ref) => s.(records := s.records[ref.id := s.records[ref.id].(revoked := true)])
  }

  /** `read_lease`: the exact current, unrevoked, in-date binding, or the first failing check. */
  function Lease(s: State, repository: RepositoryId, ref: BindingRef, now: Time): (r: Result<Binding, Error>)
    ensures r.Ok? ==> r.value.ref == ref && r.value.validFrom <= now < r.value.expiresAt
    ensures r.Ok? ==> ref.id in s.records && s.records[ref.id] == Record(repository, r.value, false)
  {
    if s.poisoned then Err(StateUnavailable)
    else if ref.id !in s.records then Err(NotFound)
    else
      var current := s.records[ref.id];
      if current.repository != repository then Err(RepositoryMismatch)
      else if current.binding.ref != ref then Err(ReferenceMismatch)
      else if current.revoked then Err(Revoked)
      else if now < current.binding.validFrom then Err(NotYetValid)
      else if current.binding.expiresAt <= now then Err(Expired)
      else Ok(current.binding)
  }

  /** The reference is the current one of its lineage, in that repository, unrevoked and in its window. */
  ghost predicate InForce(s: State, repository: RepositoryId, ref: BindingRef, now: Time) {
    && !s.poisoned && ref.id in s.records && s.records[ref.id].repository == repository && !s.records[ref.id].revoked
    && s.records[ref.id].binding.ref == ref
    && s.records[ref.id].binding.validFrom <= now < s.records[ref.id].binding.expiresAt
  }

  /** A lease is given exactly for what is in force, and every refusal names a fault that is there. */
  lemma LeaseExactly(s: State, repository: RepositoryId, ref: BindingRef, now: Time)
    ensures Lease(s, repository, ref, now).Ok? <==> InForce(s, repository, ref, now)
    ensures InForce(s, repository, ref, now) ==> Lease(s, repository, ref, now).value == s.records[ref.id].binding
    ensures Lease(s, repository, ref, now) == Err(StateUnavailable) <==> s.poisoned
    ensures Lease(s, repository, ref, now) == Err(NotFound) <==> !s.poisoned && ref.id !in s.records
    ensures Lease(s, repository, ref, now) == Err(RepositoryMismatch) ==> s.records[ref.id].repository != repository
    ensures Lease(s, repository, ref, now) == Err(ReferenceMismatch) ==> s.records[ref.id].binding.ref != ref
    ensures Lease(s, repository, ref, now) == Err(Revoked) ==> s.records[ref.id].revoked
    ensures Lease(s, repository, ref, now) == Err(NotYetValid) ==> now < s.records[ref.id].binding.validFrom
    ensures Lease(s, repository, ref, now) == Err(Expired) ==> s.records[ref.id].binding.expiresAt <= now
  {
  }

  // ---- What a write does to later leases ------------------------------------------------------------------

  /** Whoever can lease a reference can revoke it, and from then on every lease of it fails. */
  lemma RevokeTakesEffect(s: State, repository: RepositoryId, ref: BindingRef, now: Time, later: Time)
    requires Lease(s, repository, ref, now).Ok?
    ensures Lease(Apply(s, Revoke(repository, ref)), repository, ref, later) == Err(Error.Revoked)
  {
  }

  /** A binding with a new ID is in force once installed. */
  lemma InstallTakesEffect(s: State, b: Binding, now: Time)
    requires !s.poisoned && b.ref.id !in s.records && b.validFrom <= now < b.expiresAt
    ensures Lease(Apply(s, Install(b)), b.repository, b.ref, now) == Ok(b)
  {
  }

  /** Any strictly higher version replaces its lineage, revoked or not; the old reference is no longer leased. */
  lemma ReplaceTakesEffect(s: State, b: Binding, now: Time, earlier: BindingRef, later: Time)
    requires !s.poisoned && b.ref.id in s.records && s.records[b.ref.id].repository == b.repository
    requires s.records[b.ref.id].binding.ref.version < b.ref.version && b.validFrom <= now < b.expiresAt
    ensures Lease(Apply(s, Replace(b)), b.repository, b.ref, now) == Ok(b)
    ensures earlier.id == b.ref.id && earlier != b.ref ==>
      Lease(Apply(s, Replace(b)), b.repository, earlier, later).Err?
  {
  }

  /** A write reaches one lineage only. */
  lemma OthersUntouched(s: State, w: Write, repository: RepositoryId, ref: BindingRef, now: Time)
    requires ref.id != w.Id()
    ensures Lease(Apply(s, w), repository, ref, now) == Lease(s, repository, ref, now)
  {
  }

  /** The registry object: the map is updated in place under the lock. `readers` counts live read guards. */
  class LiveApprovedBindingRegistry {
    var records: map<BindingId, Record>
    var poisoned: bool
    var readers: nat

    constructor ()
      ensures Current() == INITIAL && readers == 0
    {
      records, poisoned, readers := map[], false, 0;
    }

    function Current(): State
      reads this
    {
      State(records, poisoned)
    }

    /** `install`; the write guard exists only while no read guard does. */
    method Install(binding: Binding) returns (o: Outcome)
      requires readers == 0
      modifies this`records
      ensures o == Verdict(old(Current()), Write.Install(binding))
      ensures Current() == Apply(old(Current()), Write.Install(binding))
      ensures o == Done <==> !poisoned && binding.ref.id !in old(records)
      ensures records == if o == Done then old(records)[binding.ref.id := Record(binding.repository, binding, false)]
                         else old(records)
    {
      if poisoned { return Failed(StateUnavailable); }
      var id := binding.ref.id;
      if id in records {
        if records[id].repository != binding.repository { return Failed(RepositoryMismatch); }
        return Failed(AlreadyInstalled);
      }
      records := records[id := Record(binding.repository, binding, false)];
      return Done;
    }

    method Replace(binding: Binding) returns (o: Outcome)
      requires readers == 0
      modifies this`records
      ensures o == Verdict(old(Current()), Write.Replace(binding))
      ensures Current() == Apply(old(Current()), Write.Replace(binding))
      ensures o == Done <==> !poisoned && binding.ref.id in old(records)
                             && old(records)[binding.ref.id].repository == binding.repository
                             && old(records)[binding.ref.id].binding.ref.version < binding.ref.version
      ensures records == if o == Done then old(records)[binding.ref.id := Record(binding.repository, binding, false)]
                         else old(records)
    {
      if poisoned { return Failed(StateUnavailable); }
      var id := binding.ref.id;
      if id !in records { return Failed(NotFound); }
      var current := records[id];
      if current.repository != binding.repository { return Failed(RepositoryMismatch); }
      if binding.ref.version <= current.binding.ref.version { return Failed(VersionNotAdvanced); }
      current := current.(binding := binding);
      current := current.(revoked := false);
      records := records[id := current];
      return Done;
    }

    method Revoke(repository: RepositoryId, expected: BindingRef) returns (o: Outcome)
      requires readers == 0
      modifies this`records
      ensures o == Verdict(old(Current()), Write.Revoke(repository, expected))
      ensures Current() == Apply(old(Current()), Write.Revoke(repository, expected))
      ensures o == Done <==> !poisoned && expected.id in old(records)
                             && old(records)[expected.id].repository == repository
                             && old(records)[expected.id].binding.ref == expected && !old(records)[expected.id].revoked
      ensures o == Done ==> records == old(records)[expected.id := old(records)[expected.id].(revoked := true)]
      ensures o != Done ==> records == old(records)
    {
      if poisoned { return Failed(StateUnavailable); }
      if expected.id !in records { return Failed(NotFound); }
      var current := records[expected.id];
      if current.repository != repository { return Failed(RepositoryMismatch); }
      if current.binding.ref != expected { return Failed(ReferenceMismatch); }
      if current.revoked { return Failed(Revoked); }
      records := records[expected.id := current.(revoked := true)];
      return Done;
    }

    /** `read_lease`: a guard stays held exactly when the lease is returned. */
    method ReadLease(repository: RepositoryId, expected: BindingRef, now: Time)
      returns (r: Result<Binding, Error>)
      modifies this`readers
      ensures r == Lease(Current(), repository, expected, now)
      ensures r.Ok? <==> InForce(Current(), repository, expected, now)
      ensures readers == old(readers) + if r.Ok? then 1 else 0
    {
      if poisoned { return Err(StateUnavailable); }
      readers := readers + 1;
      if expected.id !in records { readers := readers - 1; return Err(NotFound); }
      var current := records[expected.id];
      if current.repository != repository { readers := readers - 1; return Err(RepositoryMismatch); }
      if current.binding.ref != expected { readers := readers - 1; return Err(ReferenceMismatch); }
      if current.revoked { readers := readers - 1; return Err(Revoked); }
      if now < current.binding.validFrom { readers := readers - 1; return Err(NotYetValid); }
      if current.binding.expiresAt <= now { readers := readers - 1; return Err(Expired); }
      return Ok(current.binding);
    }

    method DropLease()
      requires readers > 0
      modifies this`readers
      ensures readers == old(readers) - 1
    {
      readers := readers - 1;
    }
  }

  // ---- Whole runs of writes -------------------------------------------------------------------------------

  function Run(s: State, ws: seq<Write>): State
    decreases |ws|
  {
    if ws == [] then s else Apply(Run(s, ws[..|ws| - 1]), ws[|ws| - 1])
  }

  /** Did the i-th write of the run succeed? */
  predicate Succeeds(s: State, ws: seq<Write>, i: nat)
    requires i < |ws|
  {
    Verdict(Run(s, ws[..i]), ws[i]) == Done
  }

  lemma RunSplit(s: State, ws: seq<Write>, i: nat)
    requires i < |ws|
    ensures Run(s, ws[..i + 1]) == Apply(Run(s, ws[..i]), ws[i])
  {
    assert ws[..i + 1][..i] == ws[..i];
  }

  /** `index` of the last successful write to `id`, or `|ws|` when there is none. */
  function LastWrite(s: State, ws: seq<Write>, id: BindingId): (i: nat)
    ensures i <= |ws|
    ensures i < |ws| ==> ws[i].Id() == id && Succeeds(s, ws, i)
    ensures forall j :: i < j < |ws| && ws[j].Id() == id ==> !Succeeds(s, ws, j)
    ensures i == |ws| ==> forall j :: 0 <= j < |ws| && ws[j].Id() == id ==> !Succeeds(s, ws, j)
  {
    LastWriteUpTo(s, ws, id, |ws|)
  }

  function LastWriteUpTo(s: State, ws: seq<Write>, id: BindingId, n: nat): (i: nat)
    requires n <= |ws|
    ensures i < n || i == |ws|
    ensures i < n ==> ws[i].Id() == id && Succeeds(s, ws, i)
    ensures forall j :: i < j < n && ws[j].Id() == id ==> !Succeeds(s, ws, j)
    ensures i == |ws| ==> forall j :: 0 <= j < n && ws[j].Id() == id ==> !Succeeds(s, ws, j)
  {
    if n == 0 then |ws|
    else if ws[n - 1].Id() == id && Succeeds(s, ws, n - 1) then n - 1
    else LastWriteUpTo(s, ws, id, n - 1)
  }

  /** What one registry state may become: identities stay, keep their repository and never lose version. */
  ghost predicate Evolves(s: State, t: State) {
    && (s.poisoned ==> t.poisoned)
    && forall id :: id in s.records ==>
         && id in t.records
         && t.records[id].repository == s.records[id].repository
         && s.records[id].binding.ref.version <= t.records[id].binding.ref.version
         && (s.records[id].binding.ref.version == t.records[id].binding.ref.version ==>
               && t.records[id].binding == s.records[id].binding
               && (s.records[id].revoked ==> t.records[id].revoked))
  }

  ghost predicate WellFormed(s: State) {
    forall id :: id in s.records ==>
      s.records[id].binding.ref.id == id && s.records[id].binding.repository == s.records[id].repository
  }

  lemma {:induction false} RunKeepsWellFormed(s: State, ws: seq<Write>)
    requires WellFormed(s)
    ensures WellFormed(Run(s, ws)) && Run(s, ws).poisoned == s.poisoned
    decreases |ws|
  {
    if ws != [] {
      RunKeepsWellFormed(s, ws[..|ws| - 1]);
    }
  }

  /** Between any two points of any run the records only evolve. */
  lemma {:induction false} RunEvolves(s: State, ws: seq<Write>, i: nat)
    requires i <= |ws|
    ensures Evolves(Run(s, ws[..i]), Run(s, ws))
    decreases |ws|
  {
    if i == |ws| {
      assert ws[..i] == ws;
    } else {
      var before := ws[..|ws| - 1];
      RunEvolves(s, before, i);
      assert before[..i] == ws[..i];
    }
  }

  /** A successful revoke, or a successful replace over it, retires a reference for the rest of the run. */
  ghost predicate Retires(s: State, w: Write, ref: BindingRef) {
    && Verdict(s, w) == Done
    && match w
       case Install(_) => false
       case Revoke(_, r) => r == ref
       case Replace(b) => ref.id == b.ref.id && ref == s.records[ref.id].binding.ref
  }

  /** Once retired, the exact reference is never leased again; a later lease of its lineage has a higher version. */
  lemma RetiredForever(s: State, ws: seq<Write>, i: nat, j: nat, ref: BindingRef,
                       repository: RepositoryId, other: BindingRef, now: Time)
    requires i < j <= |ws| && Retires(Run(s, ws[..i]), ws[i], ref)
    ensures Lease(Run(s, ws[..j]), repository, ref, now).Err?
    ensures other.id == ref.id && Lease(Run(s, ws[..j]), repository, other, now).Ok? ==> ref.version < other.version
  {
    RunSplit(s, ws, i);
    RunEvolves(s, ws[..j], i + 1);
    assert ws[..j][..i + 1] == ws[..i + 1];
  }

  /** The state of one lineage is exactly what its last successful write left. */
  lemma {:induction false} LastWriteDecides(ws: seq<Write>, id: BindingId)
    ensures var s := Run(INITIAL, ws); var i := LastWrite(INITIAL, ws, id);
            && (i == |ws| <==> id !in s.records)
            && (i < |ws| ==> match ws[i]
                             case Install(b) => s.records[id] == Record(b.repository, b, false)
                             case Replace(b) => s.records[id] == Record(b.repository, b, false)
                             case Revoke(repository, ref) =>
                               && id in Run(INITIAL, ws[..i]).records
                               && s.records[id] == Run(INITIAL, ws[..i]).records[id].(revoked := true)
                               && s.records[id].repository == repository && s.records[id].binding.ref == ref)
    decreases |ws|
  {
    if ws != [] {
      var n := |ws| - 1;
      var before := ws[..n];
      LastWriteDecides(before, id);
      LastWriteUpToPrefix(INITIAL, ws, id, n);
      var i := LastWrite(INITIAL, before, id);
      if i < n { assert before[..i] == ws[..i]; }
    }
  }

  lemma {:induction false} LastWriteUpToPrefix(s: State, ws: seq<Write>, id: BindingId, n: nat)
    requires n < |ws|
    ensures var short := LastWrite(s, ws[..n], id); var long := LastWriteUpTo(s, ws, id, n);
            if short == n then long == |ws| else long == short
  {
    LastWriteUpToSame(s, ws, ws[..n], id, n);
  }

  lemma {:induction false} LastWriteUpToSame(s: State, ws: seq<Write>, vs: seq<Write>, id: BindingId, n: nat)
    requires n <= |vs| <= |ws| && vs == ws[..|vs|]
    ensures var short := LastWriteUpTo(s, vs, id, n); var long := LastWriteUpTo(s, ws, id, n);
            if short == |vs| then long == |ws| else long == short
  {
    if n > 0 {
      assert vs[..n - 1] == ws[..n - 1];
      LastWriteUpToSame(s, ws, vs, id, n - 1);
    }
  }

  /** Refinement to the log of writes: a lease succeeds exactly when the last successful write of the lineage
      put that reference in force, in that repository, and the time lies in its window. */
  lemma LeaseReadsTheLog(ws: seq<Write>, repository: RepositoryId, ref: BindingRef, now: Time)
    ensures var i := LastWrite(INITIAL, ws, ref.id);
            Lease(Run(INITIAL, ws), repository, ref, now).Ok?
            <==> i < |ws| && !ws[i].Revoke? && ws[i].binding.ref == ref
                 && ws[i].binding.repository == repository
                 && ws[i].binding.validFrom <= now < ws[i].binding.expiresAt
  {
    LastWriteDecides(ws, ref.id);
    RunKeepsWellFormed(INITIAL, ws);
  }
}
