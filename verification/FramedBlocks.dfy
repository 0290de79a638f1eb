/** Framed blocks of a ledger, and the one failure block that the three-lane audit insists on
    (constrained_matched_case.rs). */
module FramedBlocks {
  import opened Prelude
  import opened Octets

  const IDENTIFIER := "550e8400-e29b-41d4-a716-446655440000"

  /** An event as the expansion of a block shows it, with its place in the source lane. */
  datatype Expanded = Expanded(id: string, payload: string, lane: nat)

  /** A framed block; its expansion may fail. */
  datatype Block = Block(id: string, members: seq<string>, reconstructed: bool, expansion: Option<seq<Expanded>>)

  datatype FailureBlock = FailureBlock(block: string, members: seq<string>)

  function ExpandedIds(es: seq<Expanded>): (ids: seq<string>)
    ensures |ids| == |es| && forall i :: 0 <= i < |es| ==> ids[i] == es[i].id
  {
    seq(|es|, i requires 0 <= i < |es| => es[i].id)
  }

  /** Reconstructed, and some event of it carries the identifier. */
  predicate Matches(b: Block) {
    b.reconstructed && b.expansion.Some? && exists e | e in b.expansion.value :: Occurs(IDENTIFIER, e.payload)
  }

  function Matching(bs: seq<Block>): (ms: seq<Block>) {
    if bs == [] then [] else (if Matches(bs[0]) then [bs[0]] else []) + Matching(bs[1..])
  }

  /** Each event follows the one before it in the lane. */
  predicate Consecutive(es: seq<Expanded>) {
    forall i :: 0 <= i < |es| - 1 ==> CheckedAdd(es[i].lane, 1) == Some(es[i + 1].lane)
  }

  /** `validate_intact_failure_block_v1`. */
  function FindFailureBlock(bs: seq<Block>): (f: Option<FailureBlock>)
    ensures f.Some? ==> |f.value.members| == 4
  {
    var ms := Matching(bs);
    if |ms| != 1 || ms[0].expansion.None? then None
    else
      var es := ms[0].expansion.value;
      if |es| != 4 || !Consecutive(es) then None else Some(FailureBlock(ms[0].id, ExpandedIds(es)))
  }

  lemma {:induction false} MatchingExactly(bs: seq<Block>)
    ensures forall b :: b in Matching(bs) <==> b in bs && Matches(b)
  {
    if bs != [] {
      MatchingExactly(bs[1..]);
      assert bs == [bs[0]] + bs[1..];
    }
  }

  /** The failure block is the only block that matches: four consecutive events, one of which carries the identifier. */
  lemma FailureBlockIsIntact(bs: seq<Block>)
    requires FindFailureBlock(bs).Some?
    ensures exists b :: b in bs && OnlyMatch(bs, b) && IsFailureBlock(b, FindFailureBlock(bs).value)
  {
    MatchingExactly(bs);
    var b := Matching(bs)[0];
    assert Matching(bs) == [b] && b in Matching(bs);
    var es := b.expansion.value;
    assert CheckedAdd(es[0].lane, 1) == Some(es[1].lane) && CheckedAdd(es[1].lane, 1) == Some(es[2].lane)
        && CheckedAdd(es[2].lane, 1) == Some(es[3].lane);
    assert IsFailureBlock(b, FindFailureBlock(bs).value);
  }

  ghost predicate OnlyMatch(bs: seq<Block>, b: Block) {
    forall c :: c in bs && Matches(c) ==> c == b
  }

  ghost predicate IsFailureBlock(b: Block, f: FailureBlock) {
    && Matches(b) && b.id == f.block && |b.expansion.value| == 4 && f.members == ExpandedIds(b.expansion.value)
    && forall i :: 0 <= i < 4 ==> b.expansion.value[i].lane == b.expansion.value[0].lane + i
  }
}
