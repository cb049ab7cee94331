/** Row totals: what the status code columns of a row add up to. */
module Totals {
  import opened Outcomes
  import opened PyDict
  import opened Tuples

  /** How many pairs of `ps` carry the minute `m`. */
  function MinuteCount(ps: seq<Pair>, m: string): (n: nat)
    ensures n <= |ps|
  {
    if ps == [] then 0
    else MinuteCount(ps[..|ps| - 1], m) + (if ps[|ps| - 1].0 == m then 1 else 0)
  }

  /** Over the status codes `codes`, the number of pairs `(m, c)` in `ms`. */
  function CodeTotal(codes: seq<string>, ms: multiset<Pair>, m: string): nat {
    if codes == [] then 0 else ms[(m, codes[0])] + CodeTotal(codes[1..], ms, m)
  }

  /** The sum of the integer cells of `row` under the status codes `codes`. */
  function RowTotal(row: Dict, codes: seq<string>): int {
    if codes == [] then 0
    else
      var cell := match Get(row, codes[0]) case Some(Int(n)) => n case _ => 0;
      cell + RowTotal(row, codes[1..])
  }

  lemma {:induction false} CodeTotalEmpty(codes: seq<string>, m: string)
    ensures CodeTotal(codes, multiset{}, m) == 0
    decreases |codes|
  {
    if codes != [] {
      CodeTotalEmpty(codes[1..], m);
    }
  }

  /** One more pair adds one to the total of its minute, when its code is
      one of the codes. */
  lemma {:induction false} CodeTotalAdd(codes: seq<string>, ms: multiset<Pair>, p: Pair, m: string)
    requires Distinct(codes)
    ensures CodeTotal(codes, ms + multiset{p}, m)
            == CodeTotal(codes, ms, m) + (if p.0 == m && p.1 in codes then 1 else 0)
    decreases |codes|
  {
    if codes != [] {
      assert Distinct(codes[1..]) by {
        forall i, j | 0 <= i < j < |codes[1..]|
          ensures codes[1..][i] != codes[1..][j]
        {
          assert codes[1..][i] == codes[i + 1] && codes[1..][j] == codes[j + 1];
        }
      }
      assert p.1 in codes <==> p.1 == codes[0] || p.1 in codes[1..];
      CodeTotalAdd(codes[1..], ms, p, m);
    }
  }

  /** When every pair's code is one of the codes, the totals over the codes
      count every pair of the minute. */
  lemma {:induction false} CodeTotalMinuteCount(codes: seq<string>, ps: seq<Pair>, m: string)
    requires Distinct(codes)
    requires forall k :: 0 <= k < |ps| ==> ps[k].1 in codes
    ensures CodeTotal(codes, multiset(ps), m) == MinuteCount(ps, m)
    decreases |ps|
  {
    if ps == [] {
      CodeTotalEmpty(codes, m);
    } else {
      var init, p := ps[..|ps| - 1], ps[|ps| - 1];
      assert ps == init + [p];
      CodeTotalMinuteCount(codes, init, m);
      CodeTotalAdd(codes, multiset(init), p, m);
    }
  }

  /** A row whose cell for each code `c` is the number of pairs `(m, c)`
      adds up to the total of the minute. */
  lemma {:induction false} RowTotalOfCounts(row: Dict, codes: seq<string>, ms: multiset<Pair>, m: string)
    requires forall c :: c in codes ==> Get(row, c) == Some(Int(ms[(m, c)]))
    ensures RowTotal(row, codes) == CodeTotal(codes, ms, m)
    decreases |codes|
  {
    if codes != [] {
      assert codes[0] in codes;
      assert forall c :: c in codes[1..] ==> c in codes;
      RowTotalOfCounts(row, codes[1..], ms, m);
    }
  }
}
