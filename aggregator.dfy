/** `create_status_code_dict`, `create_row_dict` and `create_output_list`:
    the sorted pairs folded into one row per minute, counting status codes. */
module Aggregator {
  import opened Outcomes
  import opened PyDict
  import opened Tuples
  import opened Rows

  /** `{code: 0 for code in HTTP_STATUS_CODES}`. */
  function CreateStatusCodeDict(codes: seq<string>): (d: Dict)
    requires ValidCodes(codes)
    ensures Valid(d) && Keys(d) == codes
    ensures forall k :: Get(d, k) == if k in codes then Some(Int(0)) else None
  {
    FromKeysKeys(codes, Int(0));
    forall k
      ensures Get(FromKeys(codes, Int(0)), k) == if k in codes then Some(Int(0)) else None
    {
      FromKeysGet(codes, Int(0), k);
    }
    FromKeys(codes, Int(0))
  }

  /** A row before any pair is counted: its columns are `time` and then the
      status codes in order (the CSV header), `time` holds the minute and
      every status code holds 0. */
  lemma ZeroRow(codes: seq<string>, minute: string)
    requires ValidCodes(codes)
    ensures var row := Tally(codes, minute, []);
            && Keys(row) == ["time"] + codes
            && Get(row, "time") == Some(Text(minute))
            && forall c :: c in codes ==> Get(row, c) == Some(Int(0))
  {
    TallyKeys(codes, minute, []);
    forall c | c in codes
      ensures Get(Tally(codes, minute, []), c) == Some(Int(0))
    {
      TallyGet(codes, minute, [], c);
    }
    TallyGet(codes, minute, [], "time");
  }

  /** `create_row_dict`: `dict({'time': minute})`, then `update` with the
      zeroed status codes, which gives the row of the minute before any pair
      is counted. */
  method CreateRowDict(codes: seq<string>, minute: string) returns (rowDict: Dict)
    requires ValidCodes(codes)
    ensures rowDict == Tally(codes, minute, [])
  {
    rowDict := Dict([("time", Text(minute))]);
    var zeros := CreateStatusCodeDict(codes);
    assert Keys(rowDict) == ["time"];
    UpdateKeys(rowDict, zeros);
    UpdateValid(rowDict, zeros);
    ghost var base := rowDict;
    rowDict := Update(rowDict, zeros);
    TallyKeys(codes, minute, []);
    TallyValid(codes, minute, []);
    forall k
      ensures Get(rowDict, k) == Get(Tally(codes, minute, []), k)
    {
      UpdateGet(base, zeros, k);
      TallyGet(codes, minute, [], k);
    }
    Extensionality(rowDict, Tally(codes, minute, []));
  }

  /** One cell of the row after `row[status_code] += 1` on a known code. */
  lemma TallyIncrementGet(codes: seq<string>, m: string, g: seq<Pair>, p: Pair, k: string)
    requires ValidCodes(codes) && p.1 in codes
    ensures Get(Put(Tally(codes, m, g), p.1, Int(CountOf(g, p.1) + 1)), k) == Get(Tally(codes, m, g + [p]), k)
  {
    PutGet(Tally(codes, m, g), p.1, Int(CountOf(g, p.1) + 1), k);
    TallyGet(codes, m, g, k);
    TallyGet(codes, m, g + [p], k);
    CountOfSnoc(g, p, k);
  }

  /** Adding 1 under a known code keeps the row's columns. */
  lemma TallyIncrementKeys(codes: seq<string>, m: string, g: seq<Pair>, p: Pair)
    requires ValidCodes(codes) && p.1 in codes
    ensures var d := Put(Tally(codes, m, g), p.1, Int(CountOf(g, p.1) + 1));
            Valid(d) && Keys(d) == ["time"] + codes
  {
    var before := Tally(codes, m, g);
    TallyKeys(codes, m, g);
    TallyValid(codes, m, g);
    PutKeys(before, p.1, Int(CountOf(g, p.1) + 1));
    PutValid(before, p.1, Int(CountOf(g, p.1) + 1));
  }

  /** `row[status_code] += 1` on the row of the pairs `g`, for a known code,
      gives the row of `g` followed by the pair. */
  lemma TallyIncrement(codes: seq<string>, m: string, g: seq<Pair>, p: Pair)
    requires ValidCodes(codes) && p.1 in codes
    ensures Put(Tally(codes, m, g), p.1, Int(CountOf(g, p.1) + 1)) == Tally(codes, m, g + [p])
  {
    var d := Put(Tally(codes, m, g), p.1, Int(CountOf(g, p.1) + 1));
    var after := Tally(codes, m, g + [p]);
    TallyIncrementKeys(codes, m, g, p);
    TallyKeys(codes, m, g + [p]);
    TallyValid(codes, m, g + [p]);
    forall k
      ensures Get(d, k) == Get(after, k)
    {
      TallyIncrementGet(codes, m, g, p, k);
    }
    Extensionality(d, after);
  }

  /** `row[status_code] += 1` on the row of the pairs `g`: it counts the
      pair when its code is a column of the row, and otherwise raises the
      exception Python raises. */
  lemma TallyAddOne(codes: seq<string>, m: string, g: seq<Pair>, p: Pair)
    requires ValidCodes(codes)
    ensures AddOne(Tally(codes, m, g), p.1) ==
            if p.1 in codes then Success(Tally(codes, m, g + [p])) else Failure(StatusError(p.1))
  {
    TallyGet(codes, m, g, p.1);
    if p.1 in codes {
      TallyIncrement(codes, m, g, p);
    }
  }

  /** The exception `row[status_code] += 1` raises for a code that is not a
      status code column: `time` holds a string, so adding 1 fails with
      TypeError; any other unknown key fails with KeyError. */
  function StatusError(status: string): Error {
    if status == "time" then TypeError else KeyError(status)
  }

  lemma RowsOfSnoc(codes: seq<string>, gs: seq<seq<Pair>>, g: seq<Pair>)
    requires forall k :: 0 <= k < |gs| ==> gs[k] != []
    requires g != []
    ensures RowsOf(codes, gs + [g]) == RowsOf(codes, gs) + [RowFor(codes, g)]
  {
  }

  /** A pair with the current minute joins the current run. */
  lemma RowsExtend(ps: seq<Pair>, p: Pair)
    requires ps != [] && Last(ps).0 == p.0
    ensures DropLast(Groups(ps + [p])) == DropLast(Groups(ps))
    ensures Last(Groups(ps + [p])) == Last(Groups(ps)) + [p]
  {
    var gs := Groups(ps);
    GroupsSnoc(ps, p);
    assert DropLast(DropLast(gs) + [Last(gs) + [p]]) == DropLast(gs);
  }

  /** A pair with a new minute closes the current run and starts another. */
  lemma RowsStart(ps: seq<Pair>, p: Pair)
    requires !(ps != [] && Last(ps).0 == p.0)
    ensures DropLast(Groups(ps + [p])) == Groups(ps)
    ensures Last(Groups(ps + [p])) == [p]
  {
    var gs := Groups(ps);
    GroupsSnoc(ps, p);
    assert DropLast(gs + [[p]]) == gs;
  }

  /** The rows so far: the finished ones, then the one being counted. */
  lemma RowsSplit(codes: seq<string>, ps: seq<Pair>)
    requires ps != []
    ensures RowsOf(codes, DropLast(Groups(ps))) + [RowFor(codes, Last(Groups(ps)))] == RowsOf(codes, Groups(ps))
  {
    var gs := Groups(ps);
    assert DropLast(gs) + [Last(gs)] == gs;
    RowsOfSnoc(codes, DropLast(gs), Last(gs));
  }

  /** A pair with a new minute: the row being counted, if any, joins the
      finished rows, and the pair starts a run of its own. */
  lemma NewRun(codes: seq<string>, ps: seq<Pair>, p: Pair, rowList: seq<Dict>, row: Dict)
    requires !(ps != [] && Last(ps).0 == p.0)
    requires ps == [] ==> rowList == [] && row == Dict([])
    requires ps != [] ==> && rowList == RowsOf(codes, DropLast(Groups(ps)))
                          && row == RowFor(codes, Last(Groups(ps)))
    ensures row.entries != [] <==> ps != []
    ensures (if ps != [] then rowList + [row] else rowList) == RowsOf(codes, DropLast(Groups(ps + [p])))
    ensures Last(Groups(ps + [p])) == [p]
  {
    RowsStart(ps, p);
    if ps != [] {
      RowsSplit(codes, ps);
    }
  }

  /** A pair with the current minute: the finished rows stay, and the row
      being counted is the one of the run the pair extends. */
  lemma SameRun(codes: seq<string>, ps: seq<Pair>, p: Pair, rowList: seq<Dict>, row: Dict)
    requires ps != [] && Last(ps).0 == p.0
    requires rowList == RowsOf(codes, DropLast(Groups(ps)))
    requires row == RowFor(codes, Last(Groups(ps)))
    ensures rowList == RowsOf(codes, DropLast(Groups(ps + [p])))
    ensures Minute(Last(Groups(ps))) == p.0
    ensures row == Tally(codes, p.0, Last(Groups(ps)))
    ensures Last(Groups(ps + [p])) == Last(Groups(ps)) + [p]
  {
    RowsExtend(ps, p);
    LastGroupMinute(ps);
  }

  /** The row of the run the pair joined, counted up to the pair. */
  lemma CountedRow(codes: seq<string>, ps: seq<Pair>, p: Pair, g: seq<Pair>)
    requires Last(Groups(ps + [p])) == g + [p]
    requires g != [] ==> Minute(g) == p.0
    ensures Tally(codes, p.0, g + [p]) == RowFor(codes, Last(Groups(ps + [p])))
  {
    assert Minute(g + [p]) == p.0;
  }

  lemma TakeSnoc<T>(s: seq<T>, i: nat)
    requires i < |s|
    ensures s[..i + 1] == s[..i] + [s[i]]
  {
  }

  lemma KnownCodesSnoc(codes: seq<string>, logData: seq<Pair>, i: nat)
    requires i < |logData|
    requires forall j :: 0 <= j < i ==> logData[j].1 in codes
    requires logData[i].1 in codes
    ensures forall j :: 0 <= j < i + 1 ==> logData[j].1 in codes
  {
  }

  /** The state of `create_output_list` after the pairs `ps`: the finished
      rows, the row being counted and its minute, or the initial `[]`, `{}`
      and `None`. */
  ghost predicate Loaded(codes: seq<string>, ps: seq<Pair>, rowList: seq<Dict>, row: Dict, minute: Option<string>) {
    if ps == [] then rowList == [] && row == Dict([]) && minute == None
    else && minute == Some(Last(ps).0)
         && rowList == RowsOf(codes, DropLast(Groups(ps)))
         && row == RowFor(codes, Last(Groups(ps)))
  }

  /** One pass of the loop of `create_output_list` over the pair `p`: a new
      minute appends the row (unless it is still `{}`) and starts a fresh
      one; then the pair adds 1 under its status code, which raises for a
      code that is not a column. */
  method AddPair(codes: seq<string>, ghost ps: seq<Pair>, p: Pair,
                 rowList: seq<Dict>, row: Dict, minute: Option<string>)
    returns (r: Result<(seq<Dict>, Dict, Option<string>)>)
    requires ValidCodes(codes) && Loaded(codes, ps, rowList, row, minute)
    ensures r.Success? <==> p.1 in codes
    ensures r.Failure? ==> r.error == StatusError(p.1)
    ensures r.Success? ==> Loaded(codes, ps + [p], r.value.0, r.value.1, r.value.2)
  {
    var (newMinute, status) := p;
    var rowList, row, minute := rowList, row, minute;
    ghost var g: seq<Pair> := [];
    if minute != Some(newMinute) {
      NewRun(codes, ps, p, rowList, row);
      if row.entries != [] {
        rowList := rowList + [row];
      }
      minute := Some(newMinute);
      row := CreateRowDict(codes, newMinute);
    } else {
      SameRun(codes, ps, p, rowList, row);
      g := Last(Groups(ps));
    }
    TallyAddOne(codes, newMinute, g, p);
    var counted := AddOne(row, status);
    if counted.Failure? {
      return Failure(counted.error);
    }
    CountedRow(codes, ps, p, g);
    r := Success((rowList, counted.value, minute));
  }

  /** `create_output_list`: the loop over the pairs, then the last row
      appended. The first pair whose code is not a status code column ends
      it with the error Python raises. With every code known, the rows are
      one per run of equal minutes, each counting its pairs by code; no
      pairs give `[{}]`. */
  method CreateOutputList(codes: seq<string>, logData: seq<Pair>) returns (r: Result<seq<Dict>>)
    requires ValidCodes(codes)
    ensures r.Success? <==> forall k :: 0 <= k < |logData| ==> logData[k].1 in codes
    ensures r.Failure? ==> exists i :: && 0 <= i < |logData|
                                       && (forall j :: 0 <= j < i ==> logData[j].1 in codes)
                                       && logData[i].1 !in codes
                                       && r.error == StatusError(logData[i].1)
    ensures r.Success? ==> r.value == ExpectedRows(codes, logData)
    ensures logData == [] ==> r == Success([Dict([])])
  {
    var rowList: seq<Dict> := [];
    var row := Dict([]);
    var minute: Option<string> := None;
    var i := 0;
    while i < |logData|
      invariant 0 <= i <= |logData|
      invariant forall j :: 0 <= j < i ==> logData[j].1 in codes
      invariant Loaded(codes, logData[..i], rowList, row, minute)
    {
      var step := AddPair(codes, logData[..i], logData[i], rowList, row, minute);
      if step.Failure? {
        return Failure(step.error);
      }
      rowList, row, minute := step.value.0, step.value.1, step.value.2;
      KnownCodesSnoc(codes, logData, i);
      TakeSnoc(logData, i);
      i := i + 1;
    }
    assert logData[..i] == logData;
    if i > 0 {
      RowsSplit(codes, logData);
    }
    rowList := rowList + [row];
    r := Success(rowList);
  }
}
