/** Counting arguments: distinctness as cardinality, and the pigeonhole principle. */
module Counting {
  import opened Prelude
  import opened Ordering

  function Elements<T(==)>(s: seq<T>): set<T> {
    set x | x in s
  }

  ghost function Below(n: nat): set<nat> {
    if n == 0 then {} else Below(n - 1) + {n - 1}
  }

  lemma {:induction false} BelowExact(n: nat)
    ensures |Below(n)| == n && forall k: nat :: k in Below(n) <==> k < n
  {
    if n > 0 { BelowExact(n - 1); }
  }

  lemma SubsetSize<T>(a: set<T>, b: set<T>)
    requires a <= b
    ensures |a| <= |b| && (|a| == |b| ==> a == b)
  {
    assert b == a + (b - a);
  }

  /** A list has as many elements as positions exactly when nothing repeats. */
  lemma {:induction false} DistinctIsCardinality<T>(s: seq<T>)
    ensures |Elements(s)| <= |s| && (|Elements(s)| == |s| <==> Distinct(s))
    decreases |s|
  {
    if s != [] {
      DistinctIsCardinality(s[1..]);
      DistinctByHead(s);
      assert s == [s[0]] + s[1..];
      assert Elements(s) == Elements(s[1..]) + {s[0]};
    }
  }

  /** Distinct values from a set with no more members than there are values use up the set. */
  lemma Pigeonhole<T>(s: seq<T>, all: set<T>)
    requires Distinct(s) && Elements(s) <= all && |s| == |all|
    ensures Elements(s) == all
  {
    DistinctIsCardinality(s);
    SubsetSize(Elements(s), all);
  }

  /** Distinct indices below their own number are all the indices. */
  lemma IndicesUsedUp(s: seq<nat>)
    requires Distinct(s) && forall i :: 0 <= i < |s| ==> s[i] < |s|
    ensures forall k: nat :: k < |s| <==> k in s
  {
    BelowExact(|s|);
    Pigeonhole(s, Below(|s|));
    forall k: nat ensures k < |s| <==> k in s {
      assert k in Below(|s|) <==> k in Elements(s);
    }
  }

  // ---- Counting and collecting over lists -----------------------------------------------------------------

  function Each<T, U>(f: T -> U, s: seq<T>): (r: seq<U>)
    ensures |r| == |s| && forall i :: 0 <= i < |s| ==> r[i] == f(s[i])
  {
    seq(|s|, i requires 0 <= i < |s| => f(s[i]))
  }

  lemma EachExactly<T, U>(f: T -> U, s: seq<T>, y: U)
    ensures y in Each(f, s) <==> exists x :: x in s && f(x) == y
  {
    if x :| x in s && f(x) == y {
      var i :| 0 <= i < |s| && s[i] == x;
      assert Each(f, s)[i] == y;
    }
  }

  lemma EachAppend<T, U>(f: T -> U, s: seq<T>, x: T)
    ensures Each(f, s + [x]) == Each(f, s) + [f(x)]
  {
  }

  lemma EachApart<T, U>(f: T -> U, s: seq<T>, t: seq<T>)
    ensures Each(f, s + t) == Each(f, s) + Each(f, t)
  {
  }

  function Count<T>(p: T -> bool, s: seq<T>): (n: nat)
    ensures n <= |s|
  {
    if s == [] then 0 else (if p(s[0]) then 1 else 0) + Count(p, s[1..])
  }

  lemma {:induction false} CountIsAll<T>(p: T -> bool, s: seq<T>)
    ensures Count(p, s) == |s| <==> forall x :: x in s ==> p(x)
  {
    if s != [] {
      CountIsAll(p, s[1..]);
      assert s == [s[0]] + s[1..];
    }
  }

  lemma {:induction false} CountAppend<T>(p: T -> bool, s: seq<T>, x: T)
    ensures Count(p, s + [x]) == Count(p, s) + if p(x) then 1 else 0
  {
    if s == [] {
      assert s + [x] == [x] && Count(p, [x][1..]) == 0;
    } else {
      assert (s + [x])[0] == s[0] && (s + [x])[1..] == s[1..] + [x];
      CountAppend(p, s[1..], x);
    }
  }

  /** The positions of a list whose element has the property. */
  ghost function Where<T(!new)>(p: T -> bool, s: seq<T>): set<nat> {
    set i: nat | i < |s| && p(s[i])
  }

  lemma {:induction false} CountIsWhere<T(!new)>(p: T -> bool, s: seq<T>)
    ensures Count(p, s) == |Where(p, s)|
    decreases |s|
  {
    if s == [] {
      assert Where(p, s) == {};
    } else {
      var last := |s| - 1;
      var rest, x := s[..last], s[last];
      assert s == rest + [x];
      CountAppend(p, rest, x);
      CountIsWhere(p, rest);
      if p(x) {
        assert Where(p, s) == Where(p, rest) + {last};
      } else {
        assert Where(p, s) == Where(p, rest);
      }
    }
  }

  /** `filter_map`. */
  function Collect<T, U>(f: T -> Option<U>, s: seq<T>): (r: seq<U>) {
    if s == [] then [] else (if f(s[0]).Some? then [f(s[0]).value] else []) + Collect(f, s[1..])
  }

  lemma {:induction false} CollectFrom<T, U>(f: T -> Option<U>, s: seq<T>)
    ensures |Collect(f, s)| <= |s| && (|Collect(f, s)| == |s| <==> forall x :: x in s ==> f(x).Some?)
    ensures forall y :: y in Collect(f, s) <==> exists x :: x in s && f(x) == Some(y)
  {
    if s != [] {
      CollectFrom(f, s[1..]);
      assert s == [s[0]] + s[1..];
      CollectMembers(f, s);
    }
  }

  lemma CollectMembers<T, U>(f: T -> Option<U>, s: seq<T>)
    requires s != [] && forall y :: y in Collect(f, s[1..]) <==> exists x :: x in s[1..] && f(x) == Some(y)
    ensures forall y :: y in Collect(f, s) <==> exists x :: x in s && f(x) == Some(y)
  {
    assert s == [s[0]] + s[1..];
    forall y ensures y in Collect(f, s) <==> exists x :: x in s && f(x) == Some(y) {
      assert y in Collect(f, s) <==> f(s[0]) == Some(y) || y in Collect(f, s[1..]);
    }
  }

  lemma {:induction false} CollectEmpty<T, U>(f: T -> Option<U>, s: seq<T>)
    ensures Collect(f, s) == [] <==> forall x :: x in s ==> f(x).None?
  {
    if s != [] {
      CollectEmpty(f, s[1..]);
      assert s == [s[0]] + s[1..];
    }
  }

  lemma {:induction false} CollectAppend<T, U>(f: T -> Option<U>, s: seq<T>, x: T)
    ensures Collect(f, s + [x]) == Collect(f, s) + if f(x).Some? then [f(x).value] else []
  {
    if s == [] {
      assert s + [x] == [x] && [x][1..] == [];
    } else {
      var head := if f(s[0]).Some? then [f(s[0]).value] else [];
      assert (s + [x])[0] == s[0] && (s + [x])[1..] == s[1..] + [x];
      CollectAppend(f, s[1..], x);
      Regroup(head, Collect(f, s[1..]), if f(x).Some? then [f(x).value] else []);
    }
  }

  lemma ElementsAppend<T>(s: seq<T>, x: T)
    ensures Elements(s + [x]) == Elements(s) + {x}
  {
  }

  /** A sum of numbers up to `most` reaches its largest possible value exactly when every number does. */
  lemma {:induction false} SumAtCeiling<T>(f: T -> nat, most: nat, s: seq<T>)
    requires forall x :: x in s ==> f(x) <= most
    ensures SumBy(f, s) <= most * |s|
    ensures SumBy(f, s) == most * |s| <==> forall x :: x in s ==> f(x) == most
  {
    if s != [] {
      assert s == [s[0]] + s[1..];
      SumAtCeiling(f, most, s[1..]);
      assert most * |s| == most + most * |s[1..]|;
    }
  }
}
