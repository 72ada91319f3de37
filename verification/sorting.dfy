/** Sorting by an integer key, the model of Mongo's `sort({ field: 1 })` and
    `sort({ field: -1 })`. Mongo leaves the order of equal keys unspecified, so
    callers rely only on the result being ordered and a permutation of the input. */
module Sorting {

  datatype Direction = Ascending | Descending

  predicate InOrder(d: Direction, a: int, b: int)
  {
    if d == Ascending then a <= b else a >= b
  }

  /** Every earlier element comes no later than every later one under `key` and `d`. */
  predicate Ordered<T>(s: seq<T>, key: T -> int, d: Direction)
  {
    forall i, j :: 0 <= i < j < |s| ==> InOrder(d, key(s[i]), key(s[j]))
  }

  /** Places `x` in front of the first element it may precede. */
  function Insert<T(==,!new)>(x: T, s: seq<T>, key: T -> int, d: Direction): (r: seq<T>)
    requires Ordered(s, key, d)
    ensures |r| == |s| + 1
    ensures Ordered(r, key, d)
    ensures multiset(r) == multiset(s) + multiset{x}
    ensures forall y :: y in r <==> y == x || y in s
  {
    if |s| == 0 then [x]
    else if InOrder(d, key(x), key(s[0])) then
      assert forall j :: 0 < j < |s| ==> InOrder(d, key(s[0]), key(s[j]));
      [x] + s
    else
      assert s == [s[0]] + s[1..];
      var rest := Insert(x, s[1..], key, d);
      assert forall y :: y in rest ==> InOrder(d, key(s[0]), key(y)) by {
        forall y | y in rest ensures InOrder(d, key(s[0]), key(y)) {
          if y != x {
            var j :| 0 <= j < |s[1..]| && s[1..][j] == y;
            assert s[j + 1] == y;
          }
        }
      }
      assert forall j :: 0 <= j < |rest| ==> rest[j] in rest;
      [s[0]] + rest
  }

  /** An ordered permutation of `s`. */
  function SortBy<T(==,!new)>(s: seq<T>, key: T -> int, d: Direction): (r: seq<T>)
    ensures |r| == |s|
    ensures Ordered(r, key, d)
    ensures multiset(r) == multiset(s)
    ensures forall y :: y in r <==> y in s
  {
    if |s| == 0 then []
    else
      assert s == [s[0]] + s[1..];
      Insert(s[0], SortBy(s[1..], key, d), key, d)
  }

  /** An element that occurs at two positions occurs at least twice. */
  lemma {:induction false} TwoPositions<T>(s: seq<T>, i: nat, j: nat)
    requires i < j < |s| && s[i] == s[j]
    ensures multiset(s)[s[i]] >= 2
  {
    assert s == s[..i] + [s[i]] + s[i + 1..j] + [s[j]] + s[j + 1..];
  }

  /** Elements whose projections are pairwise different occur once each. */
  lemma {:induction false} InjectiveOnce<T, K>(s: seq<T>, f: T -> K, x: T)
    requires forall i, j :: 0 <= i < j < |s| ==> f(s[i]) != f(s[j])
    ensures multiset(s)[x] <= 1
  {
    if |s| > 0 {
      assert s == [s[0]] + s[1..];
      InjectiveOnce(s[1..], f, x);
      if s[0] == x {
        forall k | 0 <= k < |s[1..]| ensures s[1..][k] != x {
          assert f(s[0]) != f(s[k + 1]);
        }
      }
    }
  }

  /** Reordering keeps a projection injective: the sort of a list with
      distinct ids still has distinct ids. */
  lemma PermutationKeepsInjective<T, K>(s: seq<T>, r: seq<T>, f: T -> K)
    requires multiset(r) == multiset(s)
    requires forall i, j :: 0 <= i < j < |s| ==> f(s[i]) != f(s[j])
    ensures forall i, j :: 0 <= i < j < |r| ==> f(r[i]) != f(r[j])
  {
    forall i, j | 0 <= i < j < |r| ensures f(r[i]) != f(r[j]) {
      if f(r[i]) == f(r[j]) {
        assert r[i] in multiset(s) && r[j] in multiset(s);
        var a :| 0 <= a < |s| && s[a] == r[i];
        var b :| 0 <= b < |s| && s[b] == r[j];
        assert a == b;
        TwoPositions(r, i, j);
        InjectiveOnce(s, f, r[i]);
        assert false;
      }
    }
  }
}
