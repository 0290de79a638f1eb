/** Byte-string order and sorting by a byte-string key, as the standard library's ordered collections do it. */
module Ordering {

  /** Lexicographic order on octet strings. */
  predicate Leq(a: string, b: string) {
    a == [] || (b != [] && (a[0] < b[0] || (a[0] == b[0] && Leq(a[1..], b[1..]))))
  }

  lemma {:induction false} LeqTotal(a: string, b: string)
    ensures Leq(a, b) || Leq(b, a)
  {
    if a != [] && b != [] { LeqTotal(a[1..], b[1..]); }
  }

  lemma {:induction false} LeqAntisymmetric(a: string, b: string)
    requires Leq(a, b) && Leq(b, a)
    ensures a == b
  {
    if a != [] {
      LeqAntisymmetric(a[1..], b[1..]);
      assert a == [a[0]] + a[1..] && b == [b[0]] + b[1..];
    }
  }

  lemma {:induction false} LeqTransitive(a: string, b: string, c: string)
    requires Leq(a, b) && Leq(b, c)
    ensures Leq(a, c)
  {
    if a != [] && a[0] == b[0] && b[0] == c[0] { LeqTransitive(a[1..], b[1..], c[1..]); }
  }

  /** The order is decided at the first difference; a front of a string comes before it. */
  lemma {:induction false} LeqExactly(a: string, b: string)
    ensures Leq(a, b) <==> a <= b || exists k :: FirstDifference(a, b, k) && a[k] < b[k]
  {
    if a != [] && b != [] {
      LeqExactly(a[1..], b[1..]);
      if a[0] < b[0] { assert FirstDifference(a, b, 0); }
      if a[0] == b[0] { SameFront(a, b); }
    }
  }

  ghost predicate FirstDifference(a: string, b: string, k: int) {
    0 <= k < |a| && k < |b| && a[..k] == b[..k] && a[k] != b[k]
  }

  lemma SameFront(a: string, b: string)
    requires a != [] && b != [] && a[0] == b[0]
    ensures a <= b <==> a[1..] <= b[1..]
    ensures (exists k :: FirstDifference(a, b, k) && a[k] < b[k])
       <==> exists k :: FirstDifference(a[1..], b[1..], k) && a[1..][k] < b[1..][k]
  {
    assert a == [a[0]] + a[1..] && b == [b[0]] + b[1..];
    if k :| FirstDifference(a, b, k) && a[k] < b[k] {
      assert a[1..][..k - 1] == a[..k][1..] && b[1..][..k - 1] == b[..k][1..];
      assert FirstDifference(a[1..], b[1..], k - 1);
    }
    if k :| FirstDifference(a[1..], b[1..], k) && a[1..][k] < b[1..][k] {
      assert a[..k + 1] == [a[0]] + a[1..][..k] && b[..k + 1] == [b[0]] + b[1..][..k];
      assert FirstDifference(a, b, k + 1);
    }
  }

  function Itself(s: string): string {
    s
  }

  predicate SortedBy<T>(key: T -> string, s: seq<T>) {
    forall i, j :: 0 <= i < j < |s| ==> Leq(key(s[i]), key(s[j]))
  }

  /** Equal keys mean equal elements. */
  ghost predicate KeyedBy<T>(key: T -> string, s: seq<T>) {
    forall x, y :: x in s && y in s && key(x) == key(y) ==> x == y
  }

  function Insert<T(==)>(key: T -> string, x: T, s: seq<T>): (r: seq<T>)
    requires SortedBy(key, s)
    ensures SortedBy(key, r) && multiset(r) == multiset(s) + multiset{x}
  {
    if s == [] then [x]
    else if Leq(key(x), key(s[0])) then
      InsertFront(key, x, s);
      assert multiset([x] + s) == multiset(s) + multiset{x};
      [x] + s
    else
      var rest := Insert(key, x, s[1..]);
      InsertBehind(key, x, s, rest);
      [s[0]] + rest
  }

  lemma InsertFront<T>(key: T -> string, x: T, s: seq<T>)
    requires SortedBy(key, s) && s != [] && Leq(key(x), key(s[0]))
    ensures SortedBy(key, [x] + s)
  {
    forall j | 0 <= j < |s| ensures Leq(key(x), key(s[j])) {
      if j > 0 { LeqTransitive(key(x), key(s[0]), key(s[j])); }
    }
  }

  lemma InsertBehind<T>(key: T -> string, x: T, s: seq<T>, rest: seq<T>)
    requires s != [] && SortedBy(key, s) && !Leq(key(x), key(s[0]))
    requires SortedBy(key, rest) && multiset(rest) == multiset(s[1..]) + multiset{x}
    ensures SortedBy(key, [s[0]] + rest) && multiset([s[0]] + rest) == multiset(s) + multiset{x}
  {
    LeqTotal(key(x), key(s[0]));
    assert s == [s[0]] + s[1..];
    forall j | 0 <= j < |rest| ensures Leq(key(s[0]), key(rest[j])) {
      assert rest[j] in multiset(rest);
      assert rest[j] in s[1..] || rest[j] == x;
    }
  }

  /** Sorting by key: the library's sort, of which only the order and the contents are visible. */
  function Sort<T(==)>(key: T -> string, s: seq<T>): (r: seq<T>)
    ensures SortedBy(key, r) && multiset(r) == multiset(s) && |r| == |s|
  {
    if s == [] then [] else
    assert s == [s[0]] + s[1..];
    var r := Insert(key, s[0], Sort(key, s[1..]));
    assert |multiset(r)| == |multiset(s)|;
    r
  }

  lemma SameElements<T>(a: seq<T>, b: seq<T>)
    requires multiset(a) == multiset(b)
    ensures |a| == |b|
    ensures forall x :: x in a ==> x in b
    ensures forall x :: x in b ==> x in a
  {
    assert |multiset(a)| == |multiset(b)|;
    assert forall x :: x in a <==> x in multiset(a);
  }

  lemma KeyedWithin<T>(key: T -> string, a: seq<T>, b: seq<T>)
    requires KeyedBy(key, a) && forall x :: x in b ==> x in a
    ensures KeyedBy(key, b)
  {
  }

  lemma TailContents<T>(s: seq<T>)
    requires s != []
    ensures multiset(s[1..]) == multiset(s) - multiset{s[0]}
  {
    assert s == [s[0]] + s[1..];
  }

  lemma SameHead<T>(key: T -> string, a: seq<T>, b: seq<T>)
    requires SortedBy(key, a) && SortedBy(key, b) && KeyedBy(key, a) && a != [] && b != []
    requires a[0] in b && b[0] in a
    ensures a[0] == b[0]
  {
    var i :| 0 <= i < |b| && b[i] == a[0];
    var j :| 0 <= j < |a| && a[j] == b[0];
    if i > 0 && j > 0 { LeqAntisymmetric(key(a[0]), key(b[0])); }
  }

  /** Two sorted arrangements of the same keyed elements are the same list. */
  lemma {:induction false} SortedUnique<T>(key: T -> string, a: seq<T>, b: seq<T>)
    requires SortedBy(key, a) && SortedBy(key, b) && multiset(a) == multiset(b) && KeyedBy(key, a)
    ensures a == b
    decreases |a|
  {
    SameElements(a, b);
    if a != [] {
      SameHead(key, a, b);
      TailContents(a);
      TailContents(b);
      KeyedWithin(key, a, a[1..]);
      SortedUnique(key, a[1..], b[1..]);
      assert a == [a[0]] + a[1..] && b == [b[0]] + b[1..];
    }
  }

  /** Sorting forgets the order of its input. */
  lemma SortIgnoresOrder<T>(key: T -> string, a: seq<T>, b: seq<T>)
    requires multiset(a) == multiset(b) && KeyedBy(key, a)
    ensures Sort(key, a) == Sort(key, b)
  {
    var x, y := Sort(key, a), Sort(key, b);
    SameElements(a, x);
    assert KeyedBy(key, x) by { KeyedWithin(key, a, x); }
    SortedUnique(key, x, y);
  }

  predicate Distinct<T(==)>(s: seq<T>) {
    forall i, j :: 0 <= i < j < |s| ==> s[i] != s[j]
  }

  /** Distinctness is a fact about contents, not about order. */
  lemma {:induction false} DistinctIsCounting<T>(s: seq<T>)
    ensures Distinct(s) <==> forall x :: multiset(s)[x] <= 1
    decreases |s|
  {
    if s != [] {
      var tail := s[1..];
      TailContents(s);
      DistinctIsCounting(tail);
      assert multiset(s) == multiset(tail) + multiset{s[0]} by { assert s == [s[0]] + tail; }
      DistinctByHead(s);
      assert s[0] in tail <==> multiset(s)[s[0]] > 1;
    }
  }

  lemma DistinctByHead<T>(s: seq<T>)
    requires s != []
    ensures Distinct(s) <==> s[0] !in s[1..] && Distinct(s[1..])
  {
    if s[0] !in s[1..] && Distinct(s[1..]) {
      forall i, j | 0 <= i < j < |s| ensures s[i] != s[j] {
        assert s[j] == s[1..][j - 1];
        if i > 0 { assert s[i] == s[1..][i - 1]; }
      }
    }
  }

  lemma DistinctIgnoresOrder<T>(a: seq<T>, b: seq<T>)
    requires multiset(a) == multiset(b)
    ensures Distinct(a) <==> Distinct(b)
  {
    DistinctIsCounting(a);
    DistinctIsCounting(b);
  }

  lemma DistinctNext<T>(s: seq<T>, x: T)
    requires Distinct(s)
    ensures Distinct(s + [x]) <==> x !in s
  {
    if Distinct(s + [x]) {
      forall i | 0 <= i < |s| ensures s[i] != x { assert (s + [x])[i] != (s + [x])[|s|]; }
    }
  }

  lemma DistinctApart<T>(s: seq<T>, t: seq<T>)
    requires Distinct(s + t)
    ensures Distinct(s)
  {
    forall i, j | 0 <= i < j < |s| ensures s[i] != s[j] { assert (s + t)[i] != (s + t)[j]; }
  }

  /** On a sorted keyed list, comparing neighbours finds every repetition. */
  lemma AdjacentSuffices<T>(key: T -> string, s: seq<T>)
    requires SortedBy(key, s) && KeyedBy(key, s)
    ensures Distinct(s) <==> forall i :: 0 <= i < |s| - 1 ==> s[i] != s[i + 1]
  {
    if (forall i :: 0 <= i < |s| - 1 ==> s[i] != s[i + 1]) {
      forall i, j | 0 <= i < j < |s| ensures s[i] != s[j] {
        if s[i] == s[j] && i + 1 < j {
          LeqAntisymmetric(key(s[i]), key(s[i + 1]));
        }
      }
    }
  }

  /** `binary_search(..).is_ok()` on a sorted slice. */
  function Finds<T(==)>(key: T -> string, s: seq<T>, x: T): (found: bool)
    requires SortedBy(key, s)
    decreases |s|
  {
    if s == [] then false else
    var mid := |s| / 2;
    if s[mid] == x then true
    else if Leq(key(s[mid]), key(x)) then Finds(key, s[mid + 1..], x)
    else Finds(key, s[..mid], x)
  }

  lemma {:induction false} FindsIsMembership<T>(key: T -> string, s: seq<T>, x: T)
    requires SortedBy(key, s) && KeyedBy(key, s + [x])
    ensures Finds(key, s, x) <==> x in s
    decreases |s|
  {
    if s != [] {
      var mid := |s| / 2;
      assert s == s[..mid] + [s[mid]] + s[mid + 1..];
      assert forall y :: y in s || y == x ==> y in s + [x];
      if s[mid] != x {
        if Leq(key(s[mid]), key(x)) {
          assert x !in s[..mid] by {
            if x in s[..mid] {
              var i :| 0 <= i < mid && s[i] == x;
              LeqAntisymmetric(key(x), key(s[mid]));
            }
          }
          FindsIsMembership(key, s[mid + 1..], x);
        } else {
          assert x !in s[mid + 1..];
          FindsIsMembership(key, s[..mid], x);
        }
      }
    }
  }

  function SumBy<T>(f: T -> nat, s: seq<T>): nat {
    if s == [] then 0 else f(s[0]) + SumBy(f, s[1..])
  }

  lemma {:induction false} SumTakesOut<T>(f: T -> nat, s: seq<T>, i: nat)
    requires i < |s|
    ensures SumBy(f, s) == f(s[i]) + SumBy(f, s[..i] + s[i + 1..])
  {
    var rest := s[..i] + s[i + 1..];
    if i == 0 {
      assert rest == s[1..];
    } else {
      SumTakesOut(f, s[1..], i - 1);
      assert rest[1..] == s[1..][..i - 1] + s[1..][i..];
    }
  }

  /** A sum is a fact about contents, not about order. */
  lemma {:induction false} SumIgnoresOrder<T>(f: T -> nat, a: seq<T>, b: seq<T>)
    requires multiset(a) == multiset(b)
    ensures SumBy(f, a) == SumBy(f, b)
    decreases |a|
  {
    SameElements(a, b);
    if a != [] {
      assert a[0] in b;
      var i :| 0 <= i < |b| && b[i] == a[0];
      var rest := b[..i] + b[i + 1..];
      assert b == b[..i] + [b[i]] + b[i + 1..];
      TailContents(a);
      SumIgnoresOrder(f, a[1..], rest);
      SumTakesOut(f, b, i);
    }
  }

  lemma {:induction false} SumApart<T>(f: T -> nat, s: seq<T>, t: seq<T>)
    ensures SumBy(f, s + t) == SumBy(f, s) + SumBy(f, t)
  {
    if s == [] {
      assert s + t == t;
    } else {
      assert (s + t)[1..] == s[1..] + t;
      SumApart(f, s[1..], t);
    }
  }

  lemma SumAppend<T>(f: T -> nat, s: seq<T>, x: T)
    ensures SumBy(f, s + [x]) == SumBy(f, s) + f(x)
  {
    SumApart(f, s, [x]);
    assert [x][1..] == [];
  }
}
