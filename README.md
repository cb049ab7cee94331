# log_parser in Dafny

A model of the aggregation pipeline of `log_parser/log_parser.py`. It turns
the lines of a web-server access log into one CSV row per minute, counting
HTTP status codes. There are three steps:

1. **Extract** (`extract_metadata`). Split a line on whitespace. The minute
   is token 3 without its first character (`[`). The status code is token 8.
2. **Order** (`create_tuple_list`). Insert each `(minute, status_code)` pair
   with `bisect.insort_left`, so the list is always sorted by Python's tuple
   order.
3. **Aggregate** (`create_output_list`, with `create_row_dict` and
   `create_status_code_dict`). Walk the sorted pairs. A new minute closes the
   current row and starts a new one: `time` holds the minute and every
   status code holds 0. Each pair then adds 1 under its status code.

The small path helper `create_output_file_path` is modelled as well.

Modules, one per file:

| file | module | models |
|---|---|---|
| `outcomes.dfy` | `Outcomes` | `Option`, `Result`, and the Python exceptions the core can raise (`IndexError`, `KeyError`, `TypeError`) |
| `pystr.dfy` | `PyStr` | `str.split()`, `str.split('/')`, Python's string order |
| `pydict.dfy` | `PyDict` | an insertion-ordered `dict` of `str` or `int` values: `d[k]`, `d[k] = v`, `d[k] += 1`, `update`, `{k: v for k in ks}` |
| `tuples.dfy` | `Tuples` | the `(minute, status_code)` pair and Python's tuple order |
| `extractor.dfy` | `Extractor` | `extract_metadata` |
| `tuplelist.dfy` | `TupleList` | `bisect.bisect_left`, `bisect.insort_left`, `create_tuple_list` |
| `rows.dfy` | `Rows` | the reference meaning of the aggregation: runs of equal minutes, one row per run, and what each row counts |
| `aggregator.dfy` | `Aggregator` | `create_status_code_dict`, `create_row_dict`, `create_output_list` |
| `totals.dfy` | `Totals` | what the status code cells of a row add up to |
| `pipeline.dfy` | `Pipeline` | `create_output_list(create_tuple_list(path))`, and the CSV properties the repository's tests check |
| `paths.dfy` | `Paths` | `create_output_file_path` |

How the source is represented:
- `HTTP_STATUS_CODES` is a parameter, `codes`. `ValidCodes(codes)` states
  that the codes are pairwise distinct and that none is `time`; both hold
  for the values of `http.HTTPStatus`.
- Exceptions the source does not catch become `Failure` results.
- The imperative parts are methods with loop invariants:
  - `create_tuple_list`: its loop, and the binary search of `insort_left`;
  - `create_output_list`: its loop over the pairs.
- A method whose loop carries state is proved against a specification
  function in `Rows`: `CreateOutputList` returns `ExpectedRows`.
- Separate lemmas prove what that specification means:
  - one row per distinct minute;
  - ascending minutes;
  - counts per `(minute, code)`;
  - the header order.

Behaviours of the code that the model keeps:
- Pairs with equal minutes are ordered by their status code strings, because whole tuples are compared.
- An empty log yields the list `[{}]`, holding one empty row.
- The output file name is the second `/`-separated field of the input path.
- On a common-log-format line, token 3 is `[day/month/year:hour:minute:second`, so the "minute" the code groups by ends in its seconds.
- Token 3 is not checked: when it is a bare `[`, the minute, and so the row's `time` cell, is the empty string.
- A common-log-format line whose request is logged as `"-"` has only eight tokens, so it raises IndexError, which the core does not catch (only `IOError` is caught).
- A line with a two-part request (`"GET /"`, as HTTP/0.9 sends it) has its size as token 8, and the size is counted as the status code.

## Model

| member | source | states |
|---|---|---|
| PyStr.Split | log_parser/log_parser.py:66 | `str.split()`: every token is non-empty and free of whitespace (which tokens, `SplitSpaced` and `SplitCovers` pin down) |
| PyStr.SplitSpaced | log_parser/log_parser.py:66 | any whitespace, then words each followed by a run of whitespace (non-empty between two words, any kind and length), splits into exactly those words |
| PyStr.SplitCovers | log_parser/log_parser.py:66 | every string is leading whitespace followed by the tokens of its split, each followed by its whitespace run: the tokens are the maximal runs of non-whitespace |
| PyStr.SplitJoinWords | log_parser/log_parser.py:66 | splitting words joined by single spaces, plus trailing whitespace such as the newline `readlines` keeps, gives back exactly those words |
| PyStr.SplitOn | log_parser/log_parser.py:33 | `str.split('/')`: at least one field; exactly one iff there is no `/`; no field contains `/` |
| PyStr.JoinSplitOn | log_parser/log_parser.py:33 | joining the fields of `split('/')` with `/` gives back the string |
| PyStr.SplitJoinOn | log_parser/log_parser.py:33 | `split('/')` of `/`-free fields joined by `/` gives back those fields |
| PyStr.SplitOnPrefix | log_parser/log_parser.py:33 | `split('/')` of `a/b`, where `a` has no `/`, is `a` followed by the fields of `b` |
| PyStr.StrLtTotal | log_parser/log_parser.py:86 | Python's string order is total |
| PyStr.StrLtTransitive | log_parser/log_parser.py:86 | Python's string order is transitive |
| PyStr.StrLtIrreflexive | log_parser/log_parser.py:86 | Python's string order is irreflexive |
| PyStr.StrLtAsymmetric | log_parser/log_parser.py:86 | Python's string order is asymmetric |
| PyDict.GetSome | log_parser/log_parser.py:114 | `d[k]` finds a value exactly when `k` is a key; otherwise Python raises KeyError |
| PyDict.PutGet | log_parser/log_parser.py:114 | after `d[k] = v`, key `k` holds `v` and every other key holds what it held before |
| PyDict.PutKeys | log_parser/log_parser.py:114 | `d[k] = v` keeps the key order when `k` is already a key, and appends `k` otherwise |
| PyDict.PutValid | log_parser/log_parser.py:114 | `d[k] = v` keeps the keys distinct |
| PyDict.AddOneEffect | log_parser/log_parser.py:114 | `d[k] += 1` (`PyDict.AddOne`, used by `Aggregator.TallyAddOne`) raises KeyError iff `k` is missing and TypeError iff its cell is a string; otherwise the keys keep their order, `k` holds one more and every other key is unchanged |
| PyDict.UpdateGet | log_parser/log_parser.py:54 | after `d.update(o)`, a key of `o` holds `o`'s value; any other key holds what `d` held |
| PyDict.UpdateKeys | log_parser/log_parser.py:54 | when no key of `o` is a key of `d`, `d.update(o)` gives `d`'s keys in order followed by `o`'s keys in `o`'s order |
| PyDict.UpdateValid | log_parser/log_parser.py:54 | `d.update(o)` keeps the keys distinct |
| PyDict.FromKeysGet | log_parser/log_parser.py:44 | `{k: v for k in ks}` maps exactly the members of `ks` to `v` |
| PyDict.FromKeysKeys | log_parser/log_parser.py:44 | the keys of `{k: v for k in ks}` are distinct, and are `ks` in order when `ks` has no repeats |
| PyDict.Extensionality | log_parser/log_parser.py:53-54 | two dicts with the same key order and the same value at every key are equal |
| Tuples.PairLtTotal | log_parser/log_parser.py:86 | Python's tuple order on pairs is total |
| Tuples.PairLtTransitive | log_parser/log_parser.py:86 | Python's tuple order on pairs is transitive |
| Tuples.PairLeMinute | log_parser/log_parser.py:86 | pairs in tuple order are also in minute order |
| Tuples.SortedUnique | log_parser/log_parser.py:81-89 | two sorted lists with the same pairs are equal, so the insertion order of the lines does not change the result |
| Extractor.ExtractMetadata | log_parser/log_parser.py:59-70 | succeeds iff the line has at least nine tokens, and otherwise raises IndexError; the minute is token 3 minus its first character and the status code is token 8 |
| Extractor.ExtractFromFields | log_parser/log_parser.py:66-70 | for a line built from fields: with fewer than nine fields, IndexError; otherwise exactly `(fields[3][1:], fields[8])` |
| Extractor.ExtractCommonLogLine | log_parser/log_parser.py:59-70 | a common-log-format line whose request has three parts (`host ident user [date:hh:mm:ss zone] "verb path protocol" status size`, then trailing whitespace) yields the timestamp `date:hh:mm:ss`, which ends in the seconds, and its status code |
| Extractor.ExtractBareBracket | log_parser/log_parser.py:59-70 | a line whose token 3 is a bare `[` yields the empty minute: nothing checks the timestamp |
| Extractor.ExtractNoRequest | log_parser/log_parser.py:59-70 | a common-log-format line whose request is logged as `"-"` has eight tokens and raises IndexError |
| Extractor.ExtractTwoPartRequest | log_parser/log_parser.py:59-70 | a common-log-format line with a two-part request (`"verb path"`) yields its timestamp and its size in place of the status code |
| Extractor.Pairs | log_parser/log_parser.py:85-86 | one pair per well-formed line |
| TupleList.BisectLeft | log_parser/log_parser.py:86 | `bisect_left` on a sorted list: every pair before the index is below `x`, and none from the index on is |
| TupleList.InsertSorted | log_parser/log_parser.py:86 | inserting at that index keeps the list sorted |
| TupleList.InsortLeft | log_parser/log_parser.py:86 | `insort_left` gives a sorted list one longer, whose multiset is the old one plus `x` |
| TupleList.CreateTupleList | log_parser/log_parser.py:73-89 | succeeds iff every line has at least nine tokens; otherwise IndexError. On success: sorted, one pair per line, and the same multiset as the lines' pairs |
| Rows.CountOfSnoc | log_parser/log_parser.py:114 | one more pair adds 1 to its own code's count and 0 to every other code |
| Rows.GroupsConcat | log_parser/log_parser.py:103-115 | the runs, concatenated, are the pairs in their order |
| Rows.GroupsUniform | log_parser/log_parser.py:109 | every pair of a run has that run's minute |
| Rows.GroupsMaximal | log_parser/log_parser.py:109-113 | neighbouring runs have different minutes: a new row starts exactly when the minute changes |
| Rows.GroupsSnocMinutes | log_parser/log_parser.py:109-113 | appending a pair keeps the earlier runs' minutes; the last run takes the pair's minute; a run is added iff the minute changed |
| Rows.GroupsAscending | log_parser/log_parser.py:109-115 | on sorted pairs the runs' minutes are strictly ascending |
| Rows.GroupsCountMinutes | log_parser/log_parser.py:109-115 | on sorted pairs there are as many runs as distinct minutes |
| Rows.GroupMinutesOccur | log_parser/log_parser.py:109-113 | each run's minute is a minute of the pairs |
| Rows.GroupCounts | log_parser/log_parser.py:109-114 | on sorted pairs, a run's count for code `c` is the number of `(minute, c)` pairs in the whole input |
| Rows.TallyKeys | log_parser/log_parser.py:47-56 | a row's keys are `time` and then the status codes, in order (the CSV header) |
| Rows.TallyGet | log_parser/log_parser.py:47-56 | a row maps `time` to its minute, each code to its count, and has no other key |
| Rows.RowsShape | log_parser/log_parser.py:92-117 | for any non-empty input, every row has the header's keys, and `time` holds its run's minute |
| Rows.SortedRowMinutes | log_parser/log_parser.py:100-117 | on sorted pairs, the rows' minutes are the distinct minutes, one row each, strictly ascending |
| Rows.SortedRowCounts | log_parser/log_parser.py:109-114 | on sorted pairs, the row of minute `m` holds, under code `c`, the number of `(m, c)` pairs |
| Aggregator.CreateStatusCodeDict | log_parser/log_parser.py:38-44 | keys are the status codes in order, each mapped to 0, and no other key |
| Aggregator.CreateRowDict | log_parser/log_parser.py:47-56 | `dict({'time': m})` updated with the zeroed codes is the row of minute `m` with nothing counted yet |
| Aggregator.ZeroRow | log_parser/log_parser.py:47-56 | that row's keys are `time` and then the codes; `time` holds `m`; every code holds 0 |
| Aggregator.TallyIncrement | log_parser/log_parser.py:114 | adding 1 under a known code of a run's row gives the row of the run extended by the pair |
| Aggregator.TallyAddOne | log_parser/log_parser.py:114 | `row[status_code] += 1` on a row of the tally counts the pair when its code is a column; for an unknown code it raises TypeError when the code is `time` (a string cell) and KeyError naming the code otherwise |
| Aggregator.NewRun | log_parser/log_parser.py:109-113 | the `if row:` guard is false only before the first pair; on a new minute the current row joins the finished rows and the pair starts a new run |
| Aggregator.SameRun | log_parser/log_parser.py:109 | a pair with the current minute keeps the finished rows and extends the current run |
| Aggregator.AddPair | log_parser/log_parser.py:103-114 | one pass of the loop: raises iff the pair's code is not a column; otherwise the state after the pairs so far becomes the state after the pair too |
| Aggregator.CreateOutputList | log_parser/log_parser.py:92-117 | succeeds iff every code is a column, and otherwise raises at the first unknown code with Python's exception; the result is one row per run of equal minutes, counting that run's pairs; no pairs give `[{}]` |
| Totals.CodeTotalMinuteCount | log_parser/log_parser.py:109-114 | when every code is a column, the per-code counts of a minute add up to that minute's number of pairs |
| Totals.RowTotalOfCounts | log_parser/log_parser.py:113-114 | a row holding the `(m, c)` counts has cells that sum to their total over the codes |
| Pipeline.SameCodes | log_parser/log_parser.py:86 | reordering the pairs does not change whether every code is a column |
| Pipeline.SortedRowsAreCsv | tests.py:15-55 | the rows of a sorted arrangement of the pairs have these properties the tests check: one row per distinct minute; minutes strictly ascending; the header as keys; integer counts per `(minute, code)` whose sum is the minute's number of lines |
| Pipeline.AggregateLines | log_parser/log_parser.py:148 | `create_output_list(create_tuple_list(...))`: raises IndexError for a short line, or Python's exception for an unknown code; an empty file gives `[{}]`; otherwise the rows have the properties of `SortedRowsAreCsv` (row count, ascending minutes, header, counts and their sum); an empty `time` cell is not excluded, see `TimeCellsNonEmpty` |
| Pipeline.TimeCellsNonEmpty | tests.py:46-55 | the tests' "no empty cell" holds for `time` whenever every line's token 3 has a character after its `[` |
| Paths.CreateOutputFilePath | log_parser/log_parser.py:24-35 | succeeds iff the path contains `/`, and otherwise raises IndexError; the result is `output_dir/<a /-free name>.file_type` |
| Paths.OutputPathOfLogFile | log_parser/log_parser.py:33-35 | for `dir/name...`, the output file is named after `name`, the path's second `/`-field |
| Paths.OutputPathExample | log_parser/log_parser.py:24-35 | with the default arguments, `logs/a.log` becomes `output/a.log.csv` |

## Left out

- `get_paths` (log_parser/log_parser.py:12-22): it walks a directory through the filesystem.
- `write_to_csv` (log_parser/log_parser.py:120-142): CSV serialisation through the `csv` library, directory creation and logging, all of which are I/O. Its `os.mkdir(output_path)` creates the file's path rather than its directory. That defect sits entirely in I/O and is not modelled.
- File handling in `create_tuple_list` (log_parser/log_parser.py:82-85, 87-88): the file is opened and read with `readlines`, and `IOError` is caught. The model takes the lines as a parameter.
- The `__main__` loop over files and the logging setup (log_parser/log_parser.py:7-8, 145-152). Only the per-file composition at line 148 is modelled.
- The members of `http.HTTPStatus` (log_parser/log_parser.py:10): they vary with the Python version. `codes` is a parameter, constrained by `ValidCodes`.
- `TupleList.InsortLeft`: the model builds a new sequence instead of shifting the list in place. The result is the same, but aliasing of `tuple_list` is not modelled (no other reference to it exists).
- Decoding the file's bytes into characters: lines are strings of characters from the start.
- `PyDict`: only `str` and `int` values are modelled, the only kinds the core stores.
- `Pipeline.AggregateLines`: when a code is unknown, it names *some* line with that code, not the first one. Sorting decides which unknown code is reached first.
