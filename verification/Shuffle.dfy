/** The xorshift generator and the candidate shuffle (hosted_ranking_qualification.rs). */
module Shuffle {
  import opened Ordering
  import opened Counting

  // ---- The generator --------------------------------------------------------------------------------------

  function SeedState(seed: bv64): bv64 {
    if seed < 1 then 1 else seed
  }

  function MixLeft13(x: bv64): bv64 {
    x ^ (x << 13)
  }

  function MixRight7(x: bv64): bv64 {
    x ^ (x >> 7)
  }

  function MixLeft17(x: bv64): bv64 {
    x ^ (x << 17)
  }

  /** The state after one draw, which is also the value drawn. */
  function Advance(x: bv64): bv64 {
    MixLeft17(MixRight7(MixLeft13(x)))
  }

  function Draws(x: bv64, n: nat): bv64
    decreases n
  {
    if n == 0 then x else Draws(Advance(x), n - 1)
  }

  function ToIndex(x: bv64, upper: nat): (i: nat)
    ensures i < upper || (upper == 0 && i == 0)
  {
    (x as nat) % (if upper < 1 then 1 else upper)
  }

  lemma MixLeft13NonZero(x: bv64)
    requires x != 0
    ensures MixLeft13(x) != 0
  {
  }

  lemma MixRight7NonZero(x: bv64)
    requires x != 0
    ensures MixRight7(x) != 0
  {
  }

  lemma MixLeft17NonZero(x: bv64)
    requires x != 0
    ensures MixLeft17(x) != 0
  {
  }

  /** Only zero leads to zero. */
  lemma AdvanceNonZero(x: bv64)
    requires x != 0
    ensures Advance(x) != 0
  {
    MixLeft13NonZero(x);
    MixRight7NonZero(MixLeft13(x));
    MixLeft17NonZero(MixRight7(MixLeft13(x)));
  }

  /** The generator never reaches its fixed point zero, whatever the seed. */
  lemma {:induction false} DrawsNonZero(x: bv64, n: nat)
    requires x != 0
    ensures Draws(x, n) != 0
    decreases n
  {
    if n > 0 {
      AdvanceNonZero(x);
      DrawsNonZero(Advance(x), n - 1);
    }
  }

  class Random {
    var state: bv64

    ghost predicate Valid()
      reads this
    {
      state != 0
    }

    constructor (seed: bv64)
      ensures Valid() && state == SeedState(seed)
    {
      state := if seed < 1 then 1 else seed;
    }

    method Next() returns (x: bv64)
      requires Valid()
      modifies this
      ensures Valid() && x == state == Advance(old(state))
    {
      AdvanceNonZero(state);
      state := MixLeft13(state);
      state := MixRight7(state);
      state := MixLeft17(state);
      return state;
    }

    method Index(upper: nat) returns (i: nat)
      requires Valid()
      modifies this
      ensures Valid() && state == Advance(old(state)) && i == ToIndex(state, upper)
    {
      var x := Next();
      i := ToIndex(x, upper);
    }
  }

  // ---- The shuffle ----------------------------------------------------------------------------------------

  function Identity(count: nat): (s: seq<nat>)
    ensures |s| == count
  {
    seq(count, i => i)
  }

  function Swap(s: seq<nat>, i: nat, j: nat): (r: seq<nat>)
    requires i < |s| && j < |s|
    ensures |r| == |s|
  {
    s[i := s[j]][j := s[i]]
  }

  /** Exchanges from position `upper` down to 1, each with a drawn position at or below it. */
  function FisherYates(s: seq<nat>, state: bv64, upper: nat): (r: seq<nat>)
    requires upper < |s| || upper == 0
    ensures |r| == |s|
    decreases upper
  {
    if upper == 0 then s
    else
      var next := Advance(state);
      FisherYates(Swap(s, upper, ToIndex(next, upper + 1)), next, upper - 1)
  }

  function RotateLeft(s: seq<nat>): seq<nat> {
    if s == [] then s else s[1..] + [s[0]]
  }

  function RandomizedOrder(count: nat, seed: bv64): (order: seq<nat>) {
    var order := FisherYates(Identity(count), SeedState(seed), Last(count));
    if count > 1 && order == Identity(count) then RotateLeft(order) else order
  }

  /** Every value below `count` exactly once. */
  ghost predicate IsPermutation(s: seq<nat>, count: nat) {
    |s| == count && Distinct(s) && (forall i :: 0 <= i < |s| ==> s[i] < count) && forall k: nat :: k < count ==> k in s
  }

  /** `randomized_order_v1`, in place. */
  method Randomize(count: nat, seed: bv64) returns (order: array<nat>)
    ensures fresh(order) && order[..] == RandomizedOrder(count, seed)
  {
    order := new nat[count](i => i);
    assert order[..] == Identity(count);
    ExchangeAll(order, seed);
    if count > 1 && order[..] == Identity(count) { Rotate(order); }
  }

  function Last(count: nat): nat {
    if count == 0 then 0 else count - 1
  }

  method ExchangeAll(order: array<nat>, seed: bv64)
    modifies order
    ensures order[..] == FisherYates(old(order[..]), SeedState(seed), Last(order.Length))
  {
    var random := new Random(seed);
    var upper: nat := Last(order.Length);
    while upper > 0
      invariant random.Valid() && fresh(random)
      invariant upper < order.Length || upper == 0
      invariant FisherYates(order[..], random.state, upper)
             == FisherYates(old(order[..]), SeedState(seed), Last(order.Length))
    {
      ghost var before, state := order[..], random.state;
      var index := random.Index(upper + 1);
      FisherYatesStep(before, state, upper, random.state, index);
      order[upper], order[index] := order[index], order[upper];
      assert order[..] == Swap(before, upper, index);
      upper := upper - 1;
    }
  }

  lemma FisherYatesStep(s: seq<nat>, state: bv64, upper: nat, next: bv64, index: nat)
    requires 0 < upper < |s| && next == Advance(state) && index == ToIndex(next, upper + 1)
    ensures FisherYates(s, state, upper) == FisherYates(Swap(s, upper, index), next, upper - 1)
  {
  }

  /** `rotate_left(1)`. */
  method Rotate(order: array<nat>)
    requires order.Length > 0
    modifies order
    ensures order[..] == RotateLeft(old(order[..]))
  {
    ghost var before := order[..];
    var first := order[0];
    for i := 0 to order.Length - 1
      invariant forall k :: 0 <= k < i ==> order[k] == before[k + 1]
      invariant forall k :: i <= k < order.Length ==> order[k] == before[k]
    {
      order[i] := order[i + 1];
    }
    order[order.Length - 1] := first;
    assert order[..] == RotateLeft(before);
  }

  lemma {:induction false} FisherYatesKeeps(s: seq<nat>, state: bv64, upper: nat, bound: nat)
    requires (upper < |s| || upper == 0) && Distinct(s) && forall i :: 0 <= i < |s| ==> s[i] < bound
    ensures var r := FisherYates(s, state, upper); Distinct(r) && forall i :: 0 <= i < |r| ==> r[i] < bound
    decreases upper
  {
    if upper > 0 {
      var next := Advance(state);
      FisherYatesKeeps(Swap(s, upper, ToIndex(next, upper + 1)), next, upper - 1, bound);
    }
  }

  /** For every count and seed the order is a permutation, and it always moves something when it can. */
  lemma OrderIsNontrivialPermutation(count: nat, seed: bv64)
    ensures IsPermutation(RandomizedOrder(count, seed), count)
    ensures count > 1 ==> RandomizedOrder(count, seed) != Identity(count)
  {
    var shuffled := FisherYates(Identity(count), SeedState(seed), Last(count));
    var order := RandomizedOrder(count, seed);
    FisherYatesKeeps(Identity(count), SeedState(seed), Last(count), count);
    if order != shuffled { assert order[0] == 1; }
    assert Distinct(order) && forall i :: 0 <= i < |order| ==> order[i] < count;
    IndicesUsedUp(order);
  }

  // ---- Which exchanges are made ---------------------------------------------------------------------------

  /** The first outputs of the generator from seed 1, and the seed that zero stands for. */
  lemma KnownDraws()
    ensures SeedState(0) == 1 && Draws(SeedState(1), 1) == 0x40822041 && Draws(SeedState(1), 2) == 0x100041060C011441
  {
    assert Advance(1) == 0x40822041;
    assert Advance(0x40822041) == 0x100041060C011441;
    assert Draws(1, 1) == Draws(Advance(1), 0);
    assert Draws(1, 2) == Draws(Advance(1), 1) == Draws(Advance(Advance(1)), 0);
  }

  /** The positions drawn: the `t`-th exchange reaches the first `count - t` positions and no other. */
  function Picks(count: nat, seed: bv64): (picks: seq<nat>)
    ensures |picks| == Last(count) && InReach(picks, count)
  {
    seq(Last(count), t requires 0 <= t < Last(count) =>
      Draws(if seed == 0 then 1 else seed, t + 1) as nat % (count - t))
  }

  /** The `t`-th pick is one of the first `count - t` positions. */
  predicate InReach(picks: seq<nat>, count: nat) {
    |picks| <= count && forall t :: 0 <= t < |picks| ==> picks[t] < count - t
  }

  /** From the `t`-th exchange on: the last position not settled yet trades places with the one picked for it. */
  function Exchanged(s: seq<nat>, picks: seq<nat>, t: nat): (r: seq<nat>)
    requires InReach(picks, |s|) && t <= |picks|
    ensures |r| == |s|
    decreases |picks| - t
  {
    if t == |picks| then s
    else
      var last := |s| - 1 - t;
      Exchanged(s[last := s[picks[t]]][picks[t] := s[last]], picks, t + 1)
  }

  lemma {:induction false} DrawsAdvance(x: bv64, t: nat)
    ensures Draws(x, t + 1) == Advance(Draws(x, t))
    decreases t
  {
    if t > 0 { DrawsAdvance(Advance(x), t - 1); }
  }

  lemma ExchangedStep(s: seq<nat>, picks: seq<nat>, t: nat)
    requires InReach(picks, |s|) && t < |picks|
    ensures Exchanged(s, picks, t) == Exchanged(Swap(s, |s| - 1 - t, picks[t]), picks, t + 1)
  {
  }

  ghost predicate PicksOf(picks: seq<nat>, start: bv64, count: nat) {
    && |picks| == Last(count) && InReach(picks, count)
    && forall t :: 0 <= t < |picks| ==> picks[t] == ToIndex(Draws(start, t + 1), count - t)
  }

  lemma {:induction false} ExchangesArePicked(s: seq<nat>, picks: seq<nat>, start: bv64, t: nat)
    requires PicksOf(picks, start, |s|) && t <= |picks|
    ensures FisherYates(s, Draws(start, t), |picks| - t) == Exchanged(s, picks, t)
    decreases |picks| - t
  {
    if t < |picks| {
      DrawsAdvance(start, t);
      FisherYatesStep(s, Draws(start, t), |picks| - t, Draws(start, t + 1), picks[t]);
      ExchangedStep(s, picks, t);
      ExchangesArePicked(Swap(s, |picks| - t, picks[t]), picks, start, t + 1);
    }
  }

  lemma PickIsIndex(count: nat, seed: bv64, t: nat)
    requires t < Last(count)
    ensures Picks(count, seed)[t] == ToIndex(Draws(SeedState(seed), t + 1), count - t)
  {
    assert SeedState(seed) == if seed == 0 then 1 else seed;
  }

  /** The order before the rotation is the identity after exactly these exchanges. */
  lemma OrderByPicks(count: nat, seed: bv64)
    ensures var order := Exchanged(Identity(count), Picks(count, seed), 0);
            RandomizedOrder(count, seed)
            == if count > 1 && order == Identity(count) then order[1..] + [order[0]] else order
  {
    var picks := Picks(count, seed);
    forall t | 0 <= t < |picks| ensures picks[t] == ToIndex(Draws(SeedState(seed), t + 1), count - t) {
      PickIsIndex(count, seed, t);
    }
    ExchangesArePicked(Identity(count), picks, SeedState(seed), 0);
  }

  /** A position that is settled stays as it is. */
  lemma {:induction false} SettledStays(s: seq<nat>, picks: seq<nat>, t: nat, j: nat)
    requires InReach(picks, |s|) && t <= |picks| && |s| - t <= j < |s|
    ensures Exchanged(s, picks, t)[j] == s[j]
    decreases |picks| - t
  {
    if t < |picks| {
      var last := |s| - 1 - t;
      SettledStays(s[last := s[picks[t]]][picks[t] := s[last]], picks, t + 1, j);
    }
  }

  lemma ExchangeDistinct(s: seq<nat>, i: nat, j: nat)
    requires Distinct(s) && i < |s| && j < |s|
    ensures Distinct(s[i := s[j]][j := s[i]])
  {
  }

  /** The value that ends in the position settled by the `t`-th exchange. */
  lemma SettledByPick(s: seq<nat>, picks: seq<nat>, t: nat)
    requires InReach(picks, |s|) && t < |picks|
    ensures Exchanged(s, picks, t)[|s| - 1 - t] == s[picks[t]]
  {
    var last := |s| - 1 - t;
    SettledStays(s[last := s[picks[t]]][picks[t] := s[last]], picks, t + 1, last);
  }

  /** Different picks give different orders, so with uniform picks no order is favoured. */
  lemma {:induction false} PicksDetermineOrder(s: seq<nat>, p: seq<nat>, q: seq<nat>, t: nat)
    requires Distinct(s) && InReach(p, |s|) && InReach(q, |s|) && |p| == |q| && t <= |p|
    requires Exchanged(s, p, t) == Exchanged(s, q, t)
    ensures forall k :: t <= k < |p| ==> p[k] == q[k]
    decreases |p| - t
  {
    if t < |p| {
      SettledByPick(s, p, t);
      SettledByPick(s, q, t);
      SamePlace(s, p[t], q[t]);
      var last := |s| - 1 - t;
      ExchangeDistinct(s, last, p[t]);
      PicksDetermineOrder(s[last := s[p[t]]][p[t] := s[last]], p, q, t + 1);
    }
  }

  lemma SamePlace(s: seq<nat>, i: nat, j: nat)
    requires Distinct(s) && i < |s| && j < |s| && s[i] == s[j]
    ensures i == j
  {
    assert i < j || j <= i;
  }
}
