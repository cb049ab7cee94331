/** The `(minute, status_code)` tuples the parser sorts, and Python's
    ordering on them. */
module Tuples {
  import opened PyStr

  /** `(minute, status_code)`, both kept as the strings found in the line. */
  type Pair = (string, string)

  /** Python's tuple `<`: the first components decide unless they are equal. */
  predicate PairLt(x: Pair, y: Pair) {
    if x.0 != y.0 then StrLt(x.0, y.0) else StrLt(x.1, y.1)
  }

  predicate PairLe(x: Pair, y: Pair) {
    x == y || PairLt(x, y)
  }

  lemma PairLtIrreflexive(x: Pair)
    ensures !PairLt(x, x)
  {
    StrLtIrreflexive(x.1);
  }

  lemma PairLtTransitive(x: Pair, y: Pair, z: Pair)
    requires PairLt(x, y) && PairLt(y, z)
    ensures PairLt(x, z)
  {
    if x.0 != y.0 && y.0 != z.0 {
      StrLtTransitive(x.0, y.0, z.0);
      if x.0 == z.0 {
        StrLtIrreflexive(x.0);
      }
    } else if x.0 == y.0 && y.0 == z.0 {
      StrLtTransitive(x.1, y.1, z.1);
    }
  }

  lemma PairLtTotal(x: Pair, y: Pair)
    ensures x == y || PairLt(x, y) || PairLt(y, x)
  {
    StrLtTotal(x.0, y.0);
    StrLtTotal(x.1, y.1);
  }

  lemma PairLtAsymmetric(x: Pair, y: Pair)
    requires PairLt(x, y)
    ensures !PairLt(y, x)
  {
    if PairLt(y, x) {
      PairLtTransitive(x, y, x);
      PairLtIrreflexive(x);
    }
  }

  lemma PairLeAntisymmetric(x: Pair, y: Pair)
    requires PairLe(x, y) && PairLe(y, x)
    ensures x == y
  {
    if x != y {
      PairLtAsymmetric(x, y);
    }
  }

  /** The order compares minutes first: a smaller pair never has a larger minute. */
  lemma PairLeMinute(x: Pair, y: Pair)
    requires PairLe(x, y)
    ensures StrLe(x.0, y.0)
  {
  }

  /** Ascending by Python's tuple order. */
  predicate Sorted(s: seq<Pair>) {
    forall i, j :: 0 <= i < j < |s| ==> PairLe(s[i], s[j])
  }

  /** Two sorted lists of the same pairs start with the same pair. */
  lemma SortedSameHead(a: seq<Pair>, b: seq<Pair>)
    requires Sorted(a) && Sorted(b) && a != [] && b != []
    requires multiset(a) == multiset(b)
    ensures a[0] == b[0]
  {
    assert a[0] in multiset(b);
    var j :| 0 <= j < |b| && b[j] == a[0];
    assert PairLe(b[0], a[0]);
    assert b[0] in multiset(a);
    var i :| 0 <= i < |a| && a[i] == b[0];
    assert PairLe(a[0], b[0]);
    PairLeAntisymmetric(a[0], b[0]);
  }

  lemma TailMultiset(a: seq<Pair>)
    requires a != []
    ensures multiset(a[1..]) == multiset(a) - multiset{a[0]}
  {
    assert a == [a[0]] + a[1..];
    assert multiset(a) == multiset{a[0]} + multiset(a[1..]);
  }

  /** A sorted arrangement of a multiset of pairs is unique: whatever sorts
      the pairs, `sorted()` or repeated `insort_left`, yields the same list. */
  lemma {:induction false} SortedUnique(a: seq<Pair>, b: seq<Pair>)
    requires Sorted(a) && Sorted(b)
    requires multiset(a) == multiset(b)
    ensures a == b
    decreases |a|
  {
    assert |a| == |multiset(a)| == |multiset(b)| == |b|;
    if a != [] {
      SortedSameHead(a, b);
      TailMultiset(a);
      TailMultiset(b);
      SortedUnique(a[1..], b[1..]);
      assert a == [a[0]] + a[1..] && b == [b[0]] + b[1..];
    }
  }
}
