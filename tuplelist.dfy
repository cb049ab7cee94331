/** `create_tuple_list`: every line of a log file turned into its pair and
    inserted with `bisect.insort_left`, so the list stays sorted throughout. */
module TupleList {
  import opened Outcomes
  import opened Tuples
  import opened Extractor

  lemma PairLeLtTransitive(x: Pair, y: Pair, z: Pair)
    requires PairLe(x, y) && PairLt(y, z)
    ensures PairLt(x, z)
  {
    if x != y {
      PairLtTransitive(x, y, z);
    }
  }

  /** `bisect.bisect_left(a, x)`: the first position whose pair is not below
      `x`; everything before it is below `x`. */
  method BisectLeft(a: seq<Pair>, x: Pair) returns (lo: nat)
    requires Sorted(a)
    ensures lo <= |a|
    ensures forall k :: 0 <= k < lo ==> PairLt(a[k], x)
    ensures forall k :: lo <= k < |a| ==> !PairLt(a[k], x)
  {
    lo := 0;
    var hi := |a|;
    while lo < hi
      invariant 0 <= lo <= hi <= |a|
      invariant forall k :: 0 <= k < lo ==> PairLt(a[k], x)
      invariant forall k :: hi <= k < |a| ==> !PairLt(a[k], x)
      decreases hi - lo
    {
      var mid := (lo + hi) / 2;
      if PairLt(a[mid], x) {
        forall k | lo <= k <= mid
          ensures PairLt(a[k], x)
        {
          PairLeLtTransitive(a[k], a[mid], x);
        }
        lo := mid + 1;
      } else {
        forall k | mid <= k < hi
          ensures !PairLt(a[k], x)
        {
          if PairLt(a[k], x) {
            PairLeLtTransitive(a[mid], a[k], x);
          }
        }
        hi := mid;
      }
    }
  }

  /** Putting `x` between the pairs below it and the pairs not below it keeps
      a sorted list sorted. */
  lemma InsertSorted(a: seq<Pair>, x: Pair, lo: nat)
    requires Sorted(a) && lo <= |a|
    requires forall k :: 0 <= k < lo ==> PairLt(a[k], x)
    requires forall k :: lo <= k < |a| ==> !PairLt(a[k], x)
    ensures Sorted(a[..lo] + [x] + a[lo..])
  {
    var r := a[..lo] + [x] + a[lo..];
    forall i, j | 0 <= i < j < |r|
      ensures PairLe(r[i], r[j])
    {
      if j < lo || lo < i {
        assert r[i] == a[if i < lo then i else i - 1];
        assert r[j] == a[if j < lo then j else j - 1];
      } else if i < lo && j == lo {
        assert r[i] == a[i];
      } else if i < lo {
        assert r[i] == a[i] && r[j] == a[j - 1];
      } else {
        assert r[i] == x && r[j] == a[j - 1];
        PairLtTotal(x, a[j - 1]);
      }
    }
  }

  /** `bisect.insort_left(a, x)`: the list with `x` added, still sorted. */
  method InsortLeft(a: seq<Pair>, x: Pair) returns (r: seq<Pair>)
    requires Sorted(a)
    ensures Sorted(r) && |r| == |a| + 1
    ensures multiset(r) == multiset(a) + multiset{x}
  {
    var lo := BisectLeft(a, x);
    InsertSorted(a, x, lo);
    r := a[..lo] + [x] + a[lo..];
    assert a == a[..lo] + a[lo..];
  }

  lemma PairsSnoc(lines: seq<string>, i: nat)
    requires i < |lines|
    requires forall k :: 0 <= k <= i ==> WellFormed(lines[k])
    ensures Pairs(lines[..i + 1]) == Pairs(lines[..i]) + [ExtractMetadata(lines[i]).value]
  {
    assert lines[..i + 1][..i] == lines[..i];
  }

  /** The loop of `create_tuple_list` over the file's lines (the reading
      itself is not modelled). The first line with fewer than nine tokens
      raises IndexError out of the function; otherwise the result holds the
      pair of every line, ascending. */
  method CreateTupleList(lines: seq<string>) returns (r: Result<seq<Pair>>)
    ensures r.Success? <==> forall k :: 0 <= k < |lines| ==> WellFormed(lines[k])
    ensures r.Failure? ==> r.error == IndexError
    ensures r.Success? ==> Sorted(r.value) && multiset(r.value) == multiset(Pairs(lines))
    ensures r.Success? ==> |r.value| == |lines|
  {
    var tupleList: seq<Pair> := [];
    var i := 0;
    while i < |lines|
      invariant 0 <= i <= |lines|
      invariant forall k :: 0 <= k < i ==> WellFormed(lines[k])
      invariant Sorted(tupleList) && |tupleList| == i
      invariant multiset(tupleList) == multiset(Pairs(lines[..i]))
    {
      var m := ExtractMetadata(lines[i]);
      if m.Failure? {
        return Failure(m.error);
      }
      PairsSnoc(lines, i);
      tupleList := InsortLeft(tupleList, m.value);
      i := i + 1;
    }
    assert lines[..i] == lines;
    r := Success(tupleList);
  }
}
