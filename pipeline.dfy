/** `create_output_list(create_tuple_list(path))` for one log file: its
    lines become sorted pairs and the pairs one row per minute, the rows the
    CSV file then holds. Reading the file and writing the CSV are not
    modelled: the lines are a parameter and the rows are the result. */
module Pipeline {
  import opened Outcomes
  import opened PyStr
  import opened PyDict
  import opened Tuples
  import opened Extractor
  import opened Rows
  import opened TupleList
  import opened Aggregator
  import opened Totals

  /** Two lists with the same multiset hold the same pairs. */
  lemma SameMembers(a: seq<Pair>, b: seq<Pair>)
    requires multiset(a) == multiset(b)
    ensures forall x :: x in a <==> x in b
  {
    forall x
      ensures x in a <==> x in b
    {
      assert x in a <==> x in multiset(a);
      assert x in b <==> x in multiset(b);
    }
  }

  /** Reordering the pairs keeps the set of minutes. */
  lemma SameMinuteSet(a: seq<Pair>, b: seq<Pair>)
    requires multiset(a) == multiset(b)
    ensures MinuteSet(a) == MinuteSet(b)
  {
    SameMembers(a, b);
  }

  /** Reordering the pairs keeps the status codes they carry. */
  lemma SameCodes(a: seq<Pair>, b: seq<Pair>, codes: seq<string>)
    requires multiset(a) == multiset(b)
    ensures (forall k :: 0 <= k < |a| ==> a[k].1 in codes) <==> (forall k :: 0 <= k < |b| ==> b[k].1 in codes)
  {
    SameMembers(a, b);
    if forall k :: 0 <= k < |a| ==> a[k].1 in codes {
      forall k | 0 <= k < |b|
        ensures b[k].1 in codes
      {
        assert b[k] in a;
      }
    }
    if forall k :: 0 <= k < |b| ==> b[k].1 in codes {
      forall k | 0 <= k < |a|
        ensures a[k].1 in codes
      {
        assert a[k] in b;
      }
    }
  }

  /** What the CSV written for the pairs `ps` holds, as the tests of the
      repository check it: as many rows as distinct minutes, the minutes in
      strictly ascending order, every row with the columns `time` and then
      the status codes (the header), `time` holding the row's minute and
      every status code an integer, the number of pairs with that minute
      and code, so that the status codes of a row add up to the number of
      pairs of its minute. */
  ghost predicate CsvRows(codes: seq<string>, ps: seq<Pair>, rows: seq<Dict>, minutes: seq<string>) {
    && |rows| == |minutes| == |MinuteSet(ps)|
    && (forall k :: 0 <= k < |minutes| ==> minutes[k] in MinuteSet(ps))
    && (forall k, l :: 0 <= k < l < |minutes| ==> StrLt(minutes[k], minutes[l]))
    && (forall k :: 0 <= k < |rows| ==>
          && Keys(rows[k]) == ["time"] + codes
          && Get(rows[k], "time") == Some(Text(minutes[k])))
    && (forall k, c :: 0 <= k < |rows| && c in codes ==>
          Get(rows[k], c) == Some(Int(multiset(ps)[(minutes[k], c)])))
    && (forall k :: 0 <= k < |rows| ==> RowTotal(rows[k], codes) == MinuteCount(ps, minutes[k]))
  }

  /** The rows built from any sorted arrangement `ps` of a non-empty list of
      pairs `qs` are the CSV of `qs`, with the minutes of `ps`'s runs. */
  lemma SortedRowsAreCsv(codes: seq<string>, ps: seq<Pair>, qs: seq<Pair>)
    requires ValidCodes(codes) && Sorted(ps) && multiset(ps) == multiset(qs) && qs != []
    requires forall k :: 0 <= k < |qs| ==> qs[k].1 in codes
    ensures CsvRows(codes, qs, ExpectedRows(codes, ps), RunMinutes(ps))
  {
    assert ps != [] by {
      assert qs[0] in multiset(qs);
    }
    SameMinuteSet(ps, qs);
    SortedRowMinutes(ps);
    RowsShape(codes, ps);
    forall c | c in codes
      ensures forall k :: 0 <= k < |ExpectedRows(codes, ps)| ==>
                Get(ExpectedRows(codes, ps)[k], c) == Some(Int(multiset(qs)[(RunMinutes(ps)[k], c)]))
    {
      SortedRowCounts(codes, ps, c);
    }
    forall k | 0 <= k < |ExpectedRows(codes, ps)|
      ensures RowTotal(ExpectedRows(codes, ps)[k], codes) == MinuteCount(qs, RunMinutes(ps)[k])
    {
      RowTotalOfCounts(ExpectedRows(codes, ps)[k], codes, multiset(qs), RunMinutes(ps)[k]);
      CodeTotalMinuteCount(codes, qs, RunMinutes(ps)[k]);
    }
  }

  /** The `time` cells are non-empty when every line's token 3 has a
      character after its first; a bare `[` gives an empty one. */
  lemma TimeCellsNonEmpty(codes: seq<string>, lines: seq<string>, rows: seq<Dict>, minutes: seq<string>)
    requires forall j :: 0 <= j < |lines| ==> WellFormed(lines[j]) && |Split(lines[j])[MinuteToken]| >= 2
    requires CsvRows(codes, Pairs(lines), rows, minutes)
    ensures forall k :: 0 <= k < |rows| ==> Get(rows[k], "time") != Some(Text(""))
  {
    var ps := Pairs(lines);
    forall k | 0 <= k < |rows|
      ensures Get(rows[k], "time") != Some(Text(""))
    {
      assert minutes[k] in MinuteSet(ps);
      var j :| 0 <= j < |ps| && ps[j].0 == minutes[k];
      assert ps[j] == ExtractMetadata(lines[j]).value;
    }
  }

  /** `create_output_list(create_tuple_list(path))` for a log file whose
      lines are `lines`. A line with fewer than nine tokens raises
      IndexError; otherwise a status code that is not a column raises as
      `row[status_code] += 1` does. Otherwise the result is the rows written
      to the CSV: for an empty file the single row `{}`, else the CSV rows
      of the file's pairs, the minutes of the rows being `minutes`. */
  method AggregateLines(codes: seq<string>, lines: seq<string>)
    returns (r: Result<seq<Dict>>, ghost minutes: seq<string>)
    requires ValidCodes(codes)
    ensures (exists k :: 0 <= k < |lines| && !WellFormed(lines[k])) ==> r == Failure(IndexError)
    ensures (forall k :: 0 <= k < |lines| ==> WellFormed(lines[k])) ==>
              && (r.Success? <==> forall k :: 0 <= k < |lines| ==> Pairs(lines)[k].1 in codes)
              && (r.Failure? ==> exists k :: && 0 <= k < |lines| && Pairs(lines)[k].1 !in codes
                                             && r.error == StatusError(Pairs(lines)[k].1))
    ensures r.Success? && lines == [] ==> r.value == [Dict([])]
    ensures r.Success? && lines != [] ==> CsvRows(codes, Pairs(lines), r.value, minutes)
  {
    minutes := [];
    var tuples := CreateTupleList(lines);
    if tuples.Failure? {
      return Failure(tuples.error), minutes;
    }
    var ps := tuples.value;
    SameCodes(ps, Pairs(lines), codes);
    r := CreateOutputList(codes, ps);
    if r.Failure? {
      ghost var i :| && 0 <= i < |ps|
                     && ps[i].1 !in codes
                     && r.error == StatusError(ps[i].1);
      SameMembers(ps, Pairs(lines));
      assert ps[i] in Pairs(lines);
    } else if lines != [] {
      minutes := RunMinutes(ps);
      SortedRowsAreCsv(codes, ps, Pairs(lines));
    }
  }
}
