/** Values shared by every component: results, options and the width of a machine word. */
module Prelude {

  datatype Option<+T> = None | Some(value: T)

  datatype Result<+T, +E> = Ok(value: T) | Err(error: E)

  /** The largest value of a 64-bit unsigned integer (and of a 64-bit `usize`). */
  const U64_MAX: nat := 0xFFFF_FFFF_FFFF_FFFF

  /** `checked_add` on 64-bit unsigned integers. */
  function CheckedAdd(a: nat, b: nat): (r: Option<nat>) {
    if a + b <= U64_MAX then Some(a + b) else None
  }

  /** Two equal lists cut at the same length have equal parts. */
  lemma SameCut<T>(a: seq<T>, x: seq<T>, b: seq<T>, y: seq<T>)
    requires |a| == |b| && a + x == b + y
    ensures a == b && x == y
  {
    assert (a + x)[..|a|] == a && (b + y)[..|b|] == b;
    assert (a + x)[|a|..] == x && (b + y)[|b|..] == y;
  }

  lemma Regroup<T>(a: seq<T>, b: seq<T>, c: seq<T>)
    ensures (a + b) + c == a + (b + c)
  {
  }
}
