/** The live registry of reserved paths and reference-counted internal file identities (internal_paths.rs). */
module InternalPathRegistry {
  import opened Prelude
  import opened UnixPaths
  import opened PathPolicy

  type Identity = nat

  datatype Error =
    | StateUnavailable | PolicyDigestMismatch | CanonicalPathReserved | OpenedIdentityReserved
    | IdentityRegistrationOverflow | IdentityNotRegistered

  datatype Outcome = Done | Failed(error: Error)

  datatype State = State(policy: Policy, identities: map<Identity, int>, poisoned: bool)

  datatype Write = ReplacePolicy(policy: Policy) | Register(identity: Identity) | Unregister(identity: Identity)

  function Start(policy: Policy): State {
    State(policy, map[], false)
  }

  function Verdict(s: State, w: Write): (o: Outcome) {
    if s.poisoned then Failed(StateUnavailable) else
    match w
    case ReplacePolicy(_) => Done
    case Register(id) =>
      if id in s.identities && s.identities[id] == U64_MAX then Failed(IdentityRegistrationOverflow) else Done
    case Unregister(id) =>
      if id !in s.identities then Failed(IdentityNotRegistered) else Done
  }

  function Apply(s: State, w: Write): State {
    if Verdict(s, w) != Done then s else
    match w
    case ReplacePolicy(policy) => s.(policy := policy)
    case Register(id) =>
      s.(identities := s.identities[id := (if id in s.identities then s.identities[id] else 0) + 1])
    case Unregister(id) =>
      s.(identities := if s.identities[id] == 1 then s.identities - {id}
                       else s.identities[id := s.identities[id] - 1])
  }

  /** `read_lease_for_locator`. */
  function LeaseFor(s: State, l: Locator, expected: string): (o: Outcome) {
    if s.poisoned then Failed(StateUnavailable)
    else if s.policy.digest != expected then Failed(PolicyDigestMismatch)
    else if Rejects(s.policy, l) then Failed(CanonicalPathReserved)
    else Done
  }

  /** `check_opened_identity`, asked under a lease. */
  function CheckOpened(s: State, id: Identity): Outcome {
    if id in s.identities then Failed(OpenedIdentityReserved) else Done
  }

  /** Counts never reach zero while present, so the decrement in `unregister` cannot underflow. */
  ghost predicate CountsPositive(s: State) {
    forall id :: id in s.identities ==> 1 <= s.identities[id] <= U64_MAX
  }

  /** How often an identity is registered. */
  function CountOf(s: State, id: Identity): int {
    if id in s.identities then s.identities[id] else 0
  }

  /** When a write succeeds, said of the fields. */
  predicate Succeeds(s: State, w: Write) {
    !s.poisoned && match w
                   case ReplacePolicy(_) => true
                   case Register(id) => CountOf(s, id) < U64_MAX
                   case Unregister(id) => id in s.identities
  }

  /** A write fails exactly on a poisoned lock, a full count or an unknown identity, and then changes nothing. */
  lemma WriteExactly(s: State, w: Write)
    requires CountsPositive(s)
    ensures Verdict(s, w) == Done <==> Succeeds(s, w)
    ensures !Succeeds(s, w) ==> Apply(s, w) == s
    ensures Verdict(s, w) == Failed(StateUnavailable) <==> s.poisoned
    ensures Verdict(s, w) == Failed(IdentityRegistrationOverflow) ==> w.Register?
    ensures Verdict(s, w) == Failed(IdentityNotRegistered) ==> w.Unregister?
  {
  }

  /** What a successful write does to every count, to the policy and to the check of an opened file. */
  lemma WriteTakesEffect(s: State, w: Write, id: Identity)
    requires CountsPositive(s) && Succeeds(s, w)
    ensures w == Register(id) ==> CountOf(Apply(s, w), id) == CountOf(s, id) + 1
    ensures w == Unregister(id) ==> CountOf(Apply(s, w), id) == CountOf(s, id) - 1
    ensures w != Register(id) && w != Unregister(id) ==> CountOf(Apply(s, w), id) == CountOf(s, id)
    ensures Apply(s, w).policy == if w.ReplacePolicy? then w.policy else s.policy
    ensures CheckOpened(Apply(s, w), id)
         == if CountOf(Apply(s, w), id) > 0 then Failed(OpenedIdentityReserved) else Done
  {
  }

  /** Some reserved path's components begin the components of the locator. */
  ghost predicate Reserves(policy: Policy, l: Locator) {
    exists p :: p in policy.roots + policy.aliases && p.components <= Components(l.root) + l.relative
  }

  lemma RejectsReserved(policy: Policy, l: Locator)
    ensures Rejects(policy, l) <==> Reserves(policy, l)
  {
    forall p | p in policy.roots + policy.aliases
      ensures IsPrefixOfLocator(p, l) <==> p.components <= Components(l.root) + l.relative
    {
      PrefixOfList(p, l);
    }
  }

  lemma PrefixOfList(p: CanonicalPath, l: Locator)
    ensures IsPrefixOfLocator(p, l) <==> p.components <= Components(l.root) + l.relative
  {
    var candidate := Components(l.root) + l.relative;
    if p.components <= candidate {
      forall i | 0 <= i < |p.components| ensures p.components[i] == candidate[i] {}
    }
  }

  /** A lease is given exactly on a sound lock, for the policy in force and a locator it does not reserve. */
  lemma LeaseForExactly(s: State, l: Locator, expected: string)
    ensures LeaseFor(s, l, expected) == Done <==> !s.poisoned && s.policy.digest == expected && !Reserves(s.policy, l)
    ensures LeaseFor(s, l, expected) == Failed(StateUnavailable) <==> s.poisoned
    ensures LeaseFor(s, l, expected) == Failed(PolicyDigestMismatch) ==> s.policy.digest != expected
    ensures LeaseFor(s, l, expected) == Failed(CanonicalPathReserved) ==> Reserves(s.policy, l)
  {
    RejectsReserved(s.policy, l);
  }

  class InternalPathRegistry {
    var policy: Policy
    var identities: map<Identity, int>
    var poisoned: bool
    var readers: nat

    constructor (policy: Policy)
      ensures Current() == Start(policy) && readers == 0
    {
      this.policy, identities, poisoned, readers := policy, map[], false, 0;
    }

    function Current(): State
      reads this
    {
      State(policy, identities, poisoned)
    }

    method ReplacePolicy(policy: Policy) returns (o: Outcome)
      requires readers == 0
      modifies this`policy
      ensures o == Verdict(old(Current()), Write.ReplacePolicy(policy))
      ensures Current() == Apply(old(Current()), Write.ReplacePolicy(policy))
      ensures o == Done <==> !poisoned
      ensures this.policy == if o == Done then policy else old(this.policy)
    {
      if poisoned { return Failed(StateUnavailable); }
      this.policy := policy;
      return Done;
    }

    /** `entry(identity).or_insert(0)` and then a checked increment of that entry. */
    method Register(identity: Identity) returns (o: Outcome)
      requires readers == 0 && CountsPositive(Current())
      modifies this`identities
      ensures o == Verdict(old(Current()), Write.Register(identity))
      ensures Current() == Apply(old(Current()), Write.Register(identity)) && CountsPositive(Current())
      ensures o == Done <==> !poisoned && CountOf(old(Current()), identity) < U64_MAX
      ensures CountOf(Current(), identity) == CountOf(old(Current()), identity) + if o == Done then 1 else 0
    {
      if poisoned { return Failed(StateUnavailable); }
      if identity !in identities { identities := identities[identity := 0]; }
      if identities[identity] == U64_MAX { return Failed(IdentityRegistrationOverflow); }
      identities := identities[identity := identities[identity] + 1];
      return Done;
    }

    method Unregister(identity: Identity) returns (o: Outcome)
      requires readers == 0 && CountsPositive(Current())
      modifies this`identities
      ensures o == Verdict(old(Current()), Write.Unregister(identity))
      ensures Current() == Apply(old(Current()), Write.Unregister(identity)) && CountsPositive(Current())
      ensures o == Done <==> !poisoned && identity in old(identities)
      ensures CountOf(Current(), identity) == CountOf(old(Current()), identity) - if o == Done then 1 else 0
    {
      if poisoned { return Failed(StateUnavailable); }
      if identity !in identities { return Failed(IdentityNotRegistered); }
      if identities[identity] == 1 {
        identities := identities - {identity};
      } else {
        identities := identities[identity := identities[identity] - 1];
      }
      return Done;
    }

    method ReadLeaseForLocator(l: Locator, expected: string) returns (o: Outcome)
      modifies this`readers
      ensures o == LeaseFor(Current(), l, expected)
      ensures o == Done <==> !poisoned && policy.digest == expected && !Reserves(policy, l)
      ensures readers == old(readers) + if o == Done then 1 else 0
    {
      RejectsReserved(policy, l);
      if poisoned { return Failed(StateUnavailable); }
      readers := readers + 1;
      if policy.digest != expected { readers := readers - 1; return Failed(PolicyDigestMismatch); }
      if Rejects(policy, l) { readers := readers - 1; return Failed(CanonicalPathReserved); }
      return Done;
    }
  }
}
