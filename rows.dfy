/** What `create_output_list` is meant to produce, defined independently of
    its loop: the pairs cut into runs of equal minute, and for each run a row
    holding the minute and, for every status code, how often it occurs. */
module Rows {
  import opened Outcomes
  import opened PyStr
  import opened PyDict
  import opened Tuples

  /** The status code columns: `HTTP_STATUS_CODES`, pairwise different and
      never the `time` column's name. */
  predicate ValidCodes(codes: seq<string>) {
    Distinct(codes) && "time" !in codes
  }

  function Last<T>(s: seq<T>): T
    requires s != []
  {
    s[|s| - 1]
  }

  function DropLast<T>(s: seq<T>): seq<T>
    requires s != []
  {
    s[..|s| - 1]
  }

  /** How many pairs of `g` carry status code `c`. */
  function CountOf(g: seq<Pair>, c: string): (n: nat)
    ensures n <= |g|
  {
    if g == [] then 0
    else CountOf(DropLast(g), c) + (if Last(g).1 == c then 1 else 0)
  }

  lemma CountOfSnoc(g: seq<Pair>, p: Pair, c: string)
    ensures CountOf(g + [p], c) == CountOf(g, c) + (if p.1 == c then 1 else 0)
  {
    assert DropLast(g + [p]) == g;
  }

  /** The maximal runs of consecutive pairs with the same minute, in order. */
  function Groups(ps: seq<Pair>): (gs: seq<seq<Pair>>)
    ensures |gs| == 0 <==> ps == []
    ensures forall k :: 0 <= k < |gs| ==> gs[k] != []
    ensures ps != [] ==> Last(Last(gs)) == Last(ps)
  {
    if ps == [] then []
    else
      var init := DropLast(ps);
      var p := Last(ps);
      var gs := Groups(init);
      if init != [] && Last(init).0 == p.0 then DropLast(gs) + [Last(gs) + [p]]
      else gs + [[p]]
  }

  /** Appending a pair either extends the last run or starts a new one. */
  lemma GroupsSnoc(ps: seq<Pair>, p: Pair)
    ensures Groups(ps + [p]) ==
            if ps != [] && Last(ps).0 == p.0 then DropLast(Groups(ps)) + [Last(Groups(ps)) + [p]]
            else Groups(ps) + [[p]]
  {
    assert DropLast(ps + [p]) == ps;
  }

  /** `[x for g in gs for x in g]`. */
  function Concat<T>(gs: seq<seq<T>>): seq<T> {
    if gs == [] then [] else Concat(DropLast(gs)) + Last(gs)
  }

  /** The minute shared by all pairs of a run. */
  function Minute(g: seq<Pair>): string
    requires g != []
  {
    g[0].0
  }

  /** The runs, put back together, are the pairs in order. */
  lemma {:induction false} GroupsConcat(ps: seq<Pair>)
    ensures Concat(Groups(ps)) == ps
  {
    if ps != [] {
      var init, p := DropLast(ps), Last(ps);
      assert ps == init + [p];
      GroupsConcat(init);
      GroupsSnoc(init, p);
      var gs := Groups(init);
      if init != [] && Last(init).0 == p.0 {
        var g' := Last(gs) + [p];
        assert DropLast(DropLast(gs) + [g']) == DropLast(gs);
        assert Concat(gs) == Concat(DropLast(gs)) + Last(gs);
      } else {
        assert DropLast(gs + [[p]]) == gs;
      }
    }
  }

  /** Every pair of a run has the run's minute. */
  lemma {:induction false} GroupsUniform(ps: seq<Pair>)
    ensures var gs := Groups(ps);
            forall k, j :: 0 <= k < |gs| && 0 <= j < |gs[k]| ==> gs[k][j].0 == Minute(gs[k])
  {
    if ps != [] {
      var init, p := DropLast(ps), Last(ps);
      assert ps == init + [p];
      GroupsUniform(init);
      GroupsSnoc(init, p);
      var gs := Groups(init);
      if init != [] && Last(init).0 == p.0 {
        var g' := Last(gs) + [p];
        assert Last(Last(gs)) == Last(init);
        assert forall j :: 0 <= j < |g'| ==> g'[j].0 == Minute(Last(gs));
      }
    }
  }

  /** The run minutes after appending a pair: the old runs keep their
      minutes, and the last run has the new pair's minute. */
  lemma GroupsSnocMinutes(ps: seq<Pair>, p: Pair)
    ensures var gs, gs' := Groups(ps), Groups(ps + [p]);
            && |gs| <= |gs'|
            && (forall k :: 0 <= k < |gs| ==> Minute(gs'[k]) == Minute(gs[k]))
            && Minute(Last(gs')) == p.0
            && (|gs'| == |gs| <==> ps != [] && Last(ps).0 == p.0)
  {
    GroupsSnoc(ps, p);
    GroupsUniform(ps);
    var gs := Groups(ps);
    if ps != [] && Last(ps).0 == p.0 {
      assert Last(Last(gs)) == Last(ps);
    }
  }

  /** The last run has the last pair's minute. */
  lemma LastGroupMinute(ps: seq<Pair>)
    requires ps != []
    ensures Minute(Last(Groups(ps))) == Last(ps).0
  {
    GroupsUniform(ps);
    var g := Last(Groups(ps));
    assert g[|g| - 1] == Last(ps);
  }

  /** Neighbouring runs have different minutes: the runs are maximal. */
  lemma {:induction false} GroupsMaximal(ps: seq<Pair>)
    ensures var gs := Groups(ps);
            forall k :: 0 <= k < |gs| - 1 ==> Minute(gs[k]) != Minute(gs[k + 1])
  {
    if ps != [] {
      var init, p := DropLast(ps), Last(ps);
      assert ps == init + [p];
      GroupsMaximal(init);
      GroupsSnocMinutes(init, p);
      var gs, gs' := Groups(init), Groups(ps);
      if init != [] && Last(init).0 != p.0 {
        LastGroupMinute(init);
        assert Minute(gs'[|gs| - 1]) != Minute(gs'[|gs|]);
      }
      forall k | 0 <= k < |gs'| - 1
        ensures Minute(gs'[k]) != Minute(gs'[k + 1])
      {
        if k + 1 < |gs| {
          assert Minute(gs'[k]) == Minute(gs[k]) && Minute(gs'[k + 1]) == Minute(gs[k + 1]);
        }
      }
    }
  }

  /** In a sorted list every pair before the last has a minute no later
      than the last one's. */
  lemma SortedMinutes(ps: seq<Pair>)
    requires Sorted(ps) && ps != []
    ensures forall q :: q in ps ==> StrLe(q.0, Last(ps).0)
  {
    forall q | q in ps
      ensures StrLe(q.0, Last(ps).0)
    {
      var i :| 0 <= i < |ps| && ps[i] == q;
      if i < |ps| - 1 {
        PairLeMinute(ps[i], Last(ps));
      }
    }
  }

  /** In a sorted list a pair whose minute differs from its predecessor's
      has a minute no earlier pair has. */
  lemma NewMinuteIsFresh(init: seq<Pair>, p: Pair)
    requires Sorted(init + [p]) && init != [] && Last(init).0 != p.0
    ensures forall q :: q in init ==> StrLt(q.0, p.0)
  {
    var ps := init + [p];
    assert Sorted(init) by {
      forall i, j | 0 <= i < j < |init|
        ensures PairLe(init[i], init[j])
      {
        assert init[i] == ps[i] && init[j] == ps[j];
      }
    }
    SortedMinutes(init);
    assert PairLe(Last(init), p) by {
      assert Last(init) == ps[|ps| - 2] && p == ps[|ps| - 1];
    }
    PairLeMinute(Last(init), p);
    forall q | q in init
      ensures StrLt(q.0, p.0)
    {
      StrLeLtTransitive(q.0, Last(init).0, p.0);
    }
  }

  lemma SortedPrefix(ps: seq<Pair>)
    requires Sorted(ps) && ps != []
    ensures Sorted(DropLast(ps))
  {
  }

  /** The set of minutes appearing in the pairs. */
  function MinuteSet(ps: seq<Pair>): set<string> {
    set p | p in ps :: p.0
  }

  /** On sorted pairs the runs' minutes are strictly ascending. */
  lemma {:induction false} GroupsAscending(ps: seq<Pair>)
    requires Sorted(ps)
    ensures var gs := Groups(ps);
            forall k, l :: 0 <= k < l < |gs| ==> StrLt(Minute(gs[k]), Minute(gs[l]))
  {
    if ps != [] {
      var init, p := DropLast(ps), Last(ps);
      assert ps == init + [p];
      SortedPrefix(ps);
      GroupsAscending(init);
      GroupsSnocMinutes(init, p);
      var gs, gs' := Groups(init), Groups(ps);
      if init != [] && Last(init).0 != p.0 {
        NewMinuteIsFresh(init, p);
        LastGroupMinute(init);
        assert StrLt(Minute(Last(gs)), p.0) by {
          assert Last(init) in init;
        }
        forall k | 0 <= k < |gs|
          ensures StrLt(Minute(gs'[k]), Minute(gs'[|gs|]))
        {
          if k < |gs| - 1 {
            StrLtTransitive(Minute(gs[k]), Minute(Last(gs)), p.0);
          }
        }
      }
    }
  }

  lemma MinuteSetSnoc(init: seq<Pair>, p: Pair)
    ensures MinuteSet(init + [p]) == MinuteSet(init) + {p.0}
  {
  }

  /** On sorted pairs a minute that differs from the previous pair's is new. */
  lemma FreshMinute(init: seq<Pair>, p: Pair)
    requires Sorted(init + [p]) && init != [] && Last(init).0 != p.0
    ensures p.0 !in MinuteSet(init)
  {
    NewMinuteIsFresh(init, p);
    if p.0 in MinuteSet(init) {
      var q :| q in init && q.0 == p.0;
      StrLtIrreflexive(p.0);
    }
  }

  /** On sorted pairs there are exactly as many runs as distinct minutes. */
  lemma {:induction false} GroupsCountMinutes(ps: seq<Pair>)
    requires Sorted(ps)
    ensures |Groups(ps)| == |MinuteSet(ps)|
  {
    if ps != [] {
      var init, p := DropLast(ps), Last(ps);
      assert ps == init + [p];
      SortedPrefix(ps);
      GroupsCountMinutes(init);
      GroupsSnoc(init, p);
      MinuteSetSnoc(init, p);
      if init != [] && Last(init).0 == p.0 {
        assert Last(init) in init;
      } else if init != [] {
        FreshMinute(init, p);
      }
    }
  }

  /** Appending a pair leaves every run but the last one as it was. */
  lemma GroupsSnocPrefix(ps: seq<Pair>, p: Pair)
    ensures var gs, gs' := Groups(ps), Groups(ps + [p]);
            && |gs'| - 1 <= |gs| <= |gs'|
            && (forall k :: 0 <= k < |gs'| - 1 ==> gs'[k] == gs[k])
            && Last(gs') == if |gs'| == |gs| then Last(gs) + [p] else [p]
  {
    GroupsSnoc(ps, p);
  }

  lemma MultisetSnoc(init: seq<Pair>, p: Pair, x: Pair)
    ensures multiset(init + [p])[x] == multiset(init)[x] + (if x == p then 1 else 0)
  {
    assert multiset(init + [p]) == multiset(init) + multiset{p};
  }

  /** The count of code `c` in the last run of sorted pairs is how often the
      pair of that run's minute and `c` occurs. */
  lemma LastGroupCount(init: seq<Pair>, p: Pair, c: string)
    requires Sorted(init + [p])
    requires init != [] ==> CountOf(Last(Groups(init)), c) == multiset(init)[(Minute(Last(Groups(init))), c)]
    ensures CountOf(Last(Groups(init + [p])), c) == multiset(init + [p])[(p.0, c)]
  {
    MultisetSnoc(init, p, (p.0, c));
    if init != [] && Last(init).0 == p.0 {
      ExtendedGroupCount(init, p, c);
    } else {
      NewGroupCount(init, p, c);
    }
  }

  lemma ExtendedGroupCount(init: seq<Pair>, p: Pair, c: string)
    requires init != [] && Last(init).0 == p.0
    ensures CountOf(Last(Groups(init + [p])), c) == CountOf(Last(Groups(init)), c) + (if p.1 == c then 1 else 0)
    ensures Minute(Last(Groups(init))) == p.0
  {
    GroupsSnoc(init, p);
    CountOfSnoc(Last(Groups(init)), p, c);
    LastGroupMinute(init);
  }

  lemma NewGroupCount(init: seq<Pair>, p: Pair, c: string)
    requires Sorted(init + [p])
    requires !(init != [] && Last(init).0 == p.0)
    ensures CountOf(Last(Groups(init + [p])), c) == if p.1 == c then 1 else 0
    ensures multiset(init)[(p.0, c)] == 0
  {
    GroupsSnoc(init, p);
    CountOfSnoc([], p, c);
    assert [] + [p] == [p];
    if init != [] {
      FreshMinute(init, p);
      AbsentMinute(init, p.0, c);
    }
  }

  lemma AbsentMinute(ps: seq<Pair>, m: string, c: string)
    requires m !in MinuteSet(ps)
    ensures multiset(ps)[(m, c)] == 0
  {
  }

  /** On sorted pairs the count of code `c` in the run of minute `m` is the
      number of times the pair `(m, c)` occurs among all the pairs. */
  lemma {:induction false} GroupCounts(ps: seq<Pair>, c: string)
    requires Sorted(ps)
    ensures var gs := Groups(ps);
            forall k :: 0 <= k < |gs| ==> CountOf(gs[k], c) == multiset(ps)[(Minute(gs[k]), c)]
  {
    if ps != [] {
      var init, p := DropLast(ps), Last(ps);
      assert ps == init + [p];
      SortedPrefix(ps);
      GroupCounts(init, c);
      GroupsSnocPrefix(init, p);
      GroupsSnocMinutes(init, p);
      GroupsAscending(ps);
      LastGroupCount(init, p, c);
      var gs, gs' := Groups(init), Groups(ps);
      forall k | 0 <= k < |gs'|
        ensures CountOf(gs'[k], c) == multiset(ps)[(Minute(gs'[k]), c)]
      {
        if k < |gs'| - 1 {
          var m := Minute(gs'[k]);
          assert StrLt(m, Minute(gs'[|gs'| - 1]));
          StrLtIrreflexive(p.0);
          MultisetSnoc(init, p, (m, c));
          assert gs'[k] == gs[k];
        }
      }
    }
  }

  /** A run's minute appears among the pairs. */
  lemma {:induction false} GroupMinutesOccur(ps: seq<Pair>)
    ensures var gs := Groups(ps);
            forall k :: 0 <= k < |gs| ==> Minute(gs[k]) in MinuteSet(ps)
  {
    if ps != [] {
      var init, p := DropLast(ps), Last(ps);
      assert ps == init + [p];
      GroupMinutesOccur(init);
      GroupsSnocPrefix(init, p);
      GroupsSnocMinutes(init, p);
      MinuteSetSnoc(init, p);
    }
  }

  /** The status code columns of a row: each code, in code order, with how
      many pairs of `g` carry it. */
  function CodeColumns(codes: seq<string>, g: seq<Pair>): (cols: seq<(string, Value)>)
    ensures |cols| == |codes|
  {
    if codes == [] then []
    else [(codes[0], Int(CountOf(g, codes[0])))] + CodeColumns(codes[1..], g)
  }

  lemma {:induction false} CodeColumnsIndex(codes: seq<string>, g: seq<Pair>)
    ensures forall i :: 0 <= i < |codes| ==> CodeColumns(codes, g)[i] == (codes[i], Int(CountOf(g, codes[i])))
  {
    if codes != [] {
      CodeColumnsIndex(codes[1..], g);
    }
  }

  /** The row of minute `m` after counting the pairs `g`: the `time` column,
      then the status code columns. */
  function Tally(codes: seq<string>, m: string, g: seq<Pair>): Dict {
    Dict([("time", Text(m))] + CodeColumns(codes, g))
  }

  /** The columns of a row are `time` and then the status codes. */
  lemma TallyKeys(codes: seq<string>, m: string, g: seq<Pair>)
    ensures Keys(Tally(codes, m, g)) == ["time"] + codes
  {
    KeysIndex(Tally(codes, m, g));
    CodeColumnsIndex(codes, g);
  }

  lemma TallyValid(codes: seq<string>, m: string, g: seq<Pair>)
    requires ValidCodes(codes)
    ensures Valid(Tally(codes, m, g))
  {
    TallyKeys(codes, m, g);
    var ks := ["time"] + codes;
    forall i, j | 0 <= i < j < |ks|
      ensures ks[i] != ks[j]
    {
      if i == 0 {
        assert ks[j] == codes[j - 1];
      }
    }
    DistinctValid(Tally(codes, m, g));
  }

  /** A row maps `time` to its minute and each status code to its count;
      nothing else is in it. */
  lemma TallyGet(codes: seq<string>, m: string, g: seq<Pair>, key: string)
    requires ValidCodes(codes)
    ensures Get(Tally(codes, m, g), key) ==
            if key == "time" then Some(Text(m))
            else if key in codes then Some(Int(CountOf(g, key)))
            else None
  {
    var d := Tally(codes, m, g);
    CodeColumnsIndex(codes, g);
    TallyKeys(codes, m, g);
    TallyValid(codes, m, g);
    if key == "time" {
      GetIndex(d, 0);
    } else if key in codes {
      var i :| 0 <= i < |codes| && codes[i] == key;
      GetIndex(d, i + 1);
    } else {
      GetSome(d, key);
    }
  }

  /** The row for one run. */
  function RowFor(codes: seq<string>, g: seq<Pair>): Dict
    requires g != []
  {
    Tally(codes, Minute(g), g)
  }

  /** One row per run, in run order. */
  function RowsOf(codes: seq<string>, gs: seq<seq<Pair>>): (rows: seq<Dict>)
    requires forall k :: 0 <= k < |gs| ==> gs[k] != []
    ensures |rows| == |gs|
  {
    seq(|gs|, k requires 0 <= k < |gs| => RowFor(codes, gs[k]))
  }

  /** The rows `create_output_list` returns for the pairs `ps`: one per run of
      equal minutes; for no pairs at all, the single empty row `{}`. */
  function ExpectedRows(codes: seq<string>, ps: seq<Pair>): seq<Dict> {
    if ps == [] then [Dict([])] else RowsOf(codes, Groups(ps))
  }

  /** The minutes of the runs, in order. */
  function RunMinutes(ps: seq<Pair>): (ms: seq<string>)
    ensures |ms| == |Groups(ps)|
  {
    var gs := Groups(ps);
    seq(|gs|, k requires 0 <= k < |gs| => Minute(gs[k]))
  }

  /** Whatever the order of the pairs, every row has the header's columns,
      `time` holding the run's minute. */
  lemma RowsShape(codes: seq<string>, ps: seq<Pair>)
    requires ValidCodes(codes) && ps != []
    ensures var rows := ExpectedRows(codes, ps);
            && |rows| == |RunMinutes(ps)|
            && forall k :: 0 <= k < |rows| ==>
                 && Keys(rows[k]) == ["time"] + codes
                 && Get(rows[k], "time") == Some(Text(RunMinutes(ps)[k]))
  {
    var gs := Groups(ps);
    forall k | 0 <= k < |gs|
      ensures Keys(RowFor(codes, gs[k])) == ["time"] + codes
      ensures Get(RowFor(codes, gs[k]), "time") == Some(Text(Minute(gs[k])))
    {
      TallyKeys(codes, Minute(gs[k]), gs[k]);
      TallyGet(codes, Minute(gs[k]), gs[k], "time");
    }
  }

  /** On sorted pairs (what `create_tuple_list` returns) there is exactly one
      row per distinct minute, in strictly ascending minute order. */
  lemma SortedRowMinutes(ps: seq<Pair>)
    requires Sorted(ps)
    ensures var ms := RunMinutes(ps);
            && |ms| == |MinuteSet(ps)|
            && (forall k :: 0 <= k < |ms| ==> ms[k] in MinuteSet(ps))
            && (forall k, l :: 0 <= k < l < |ms| ==> StrLt(ms[k], ms[l]))
  {
    GroupsCountMinutes(ps);
    GroupMinutesOccur(ps);
    GroupsAscending(ps);
  }

  /** On sorted pairs the row of minute `m` counts, under each status code
      `c`, the lines whose pair is `(m, c)`. */
  lemma SortedRowCounts(codes: seq<string>, ps: seq<Pair>, c: string)
    requires ValidCodes(codes) && Sorted(ps) && ps != [] && c in codes
    ensures var rows, ms := ExpectedRows(codes, ps), RunMinutes(ps);
            forall k :: 0 <= k < |rows| ==> Get(rows[k], c) == Some(Int(multiset(ps)[(ms[k], c)]))
  {
    var gs, rows, ms := Groups(ps), ExpectedRows(codes, ps), RunMinutes(ps);
    GroupCounts(ps, c);
    forall k | 0 <= k < |rows|
      ensures Get(rows[k], c) == Some(Int(multiset(ps)[(ms[k], c)]))
    {
      assert CountOf(Groups(ps)[k], c) == multiset(ps)[(Minute(Groups(ps)[k]), c)];
      assert rows[k] == RowFor(codes, gs[k]) && ms[k] == Minute(gs[k]);
      TallyGet(codes, Minute(gs[k]), gs[k], c);
    }
  }
}
