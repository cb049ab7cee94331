/** `extract_metadata`: one access-log line to its `(minute, status_code)` pair,
    taken by fixed token positions of the whitespace split. */
module Extractor {
  import opened Outcomes
  import opened PyStr
  import opened Tuples

  /** Token 3 holds `[` and the minute timestamp; token 8 the status code. */
  const MinuteToken := 3
  const StatusToken := 8

  /** The source indexes tokens 3 and 8 and catches nothing: a line with fewer
      than nine tokens raises IndexError. */
  predicate WellFormed(line: string) {
    |Split(line)| > StatusToken
  }

  /** `line.split()`, then `(tokens[3][1:], tokens[8])`. Tokens are never empty,
      so dropping the first character of token 3 needs no check. */
  function ExtractMetadata(line: string): (r: Result<Pair>)
    ensures r.Success? <==> WellFormed(line)
    ensures r.Failure? ==> r.error == IndexError
    ensures r.Success? ==> r.value.0 == Split(line)[MinuteToken][1..]
    ensures r.Success? ==> r.value.1 == Split(line)[StatusToken]
  {
    var tokens := Split(line);
    if |tokens| <= StatusToken then Failure(IndexError)
    else Success((tokens[MinuteToken][1..], tokens[StatusToken]))
  }

  /** A line assembled from whitespace-free fields, with any trailing
      whitespace, yields field 3 without its first character and field 8;
      with fewer than nine fields it fails with IndexError. */
  lemma ExtractFromFields(fields: seq<string>, tail: string)
    requires forall i {:trigger fields[i]} :: 0 <= i < |fields| ==> IsWord(fields[i])
    requires AllSpace(tail)
    ensures |fields| < 9 ==> ExtractMetadata(JoinWords(fields) + tail) == Failure(IndexError)
    ensures |fields| >= 9 ==> IsWord(fields[3]) &&
                              ExtractMetadata(JoinWords(fields) + tail) == Success((fields[3][1..], fields[8]))
  {
    SplitJoinWords(fields, tail);
  }

  /** A line in the common log format whose request has three parts, such
      as `h - u [10/Oct/2000:13:55:36 -0700] "GET / HTTP/1.0" 200 2326`: host,
      identity, user, `[date:hour:minute:second`, `zone]`, the request as
      `"verb`, `path` and `protocol"`, the status code and the size, ended by
      the newline `readlines` keeps. The "minute" the parser extracts is the
      timestamp down to the seconds, so the parser groups by second. */
  lemma ExtractCommonLogLine(host: string, ident: string, user: string,
                             date: string, hour: string, minute: string, second: string,
                             zone: string, verb: string, path: string, protocol: string,
                             status: string, size: string, tail: string)
    requires IsWord(host) && IsWord(ident) && IsWord(user) && IsWord(zone) && IsWord(path)
    requires IsWord(status) && IsWord(size)
    requires NoSpace(date) && NoSpace(hour) && NoSpace(minute) && NoSpace(second)
    requires NoSpace(verb) && NoSpace(protocol)
    requires AllSpace(tail)
    ensures var stamp := date + ":" + hour + ":" + minute + ":" + second;
            ExtractMetadata(JoinWords([host, ident, user, "[" + stamp, zone + "]",
                                       "\"" + verb, path, protocol + "\"", status, size]) + tail)
            == Success((stamp, status))
  {
    var stamp := date + ":" + hour + ":" + minute + ":" + second;
    assert NoSpace(":") && NoSpace("[") && NoSpace("]") && NoSpace("\"");
    NoSpaceConcat(date, ":");
    NoSpaceConcat(date + ":", hour);
    NoSpaceConcat(date + ":" + hour, ":");
    NoSpaceConcat(date + ":" + hour + ":", minute);
    NoSpaceConcat(date + ":" + hour + ":" + minute, ":");
    NoSpaceConcat(date + ":" + hour + ":" + minute + ":", second);
    NoSpaceConcat("[", stamp);
    NoSpaceConcat(zone, "]");
    NoSpaceConcat("\"", verb);
    NoSpaceConcat(protocol, "\"");
    var fields := [host, ident, user, "[" + stamp, zone + "]", "\"" + verb, path, protocol + "\"", status, size];
    ExtractFromFields(fields, tail);
    assert fields[3][1..] == stamp;
  }

  /** Nothing checks token 3: when it is a bare `[`, the minute is empty. */
  lemma ExtractBareBracket(fields: seq<string>, tail: string)
    requires forall i {:trigger fields[i]} :: 0 <= i < |fields| ==> IsWord(fields[i])
    requires AllSpace(tail)
    requires |fields| >= 9 && fields[3] == "["
    ensures ExtractMetadata(JoinWords(fields) + tail) == Success(("", fields[8]))
  {
    ExtractFromFields(fields, tail);
  }

  /** A common-log-format line whose request is logged as `"-"` (no request
      line, as for a timed-out connection) has eight tokens, so the parser
      raises IndexError. */
  lemma ExtractNoRequest(host: string, ident: string, user: string, stamp: string, zone: string,
                         status: string, size: string, tail: string)
    requires IsWord(host) && IsWord(ident) && IsWord(user) && IsWord(stamp) && IsWord(zone)
    requires IsWord(status) && IsWord(size)
    requires AllSpace(tail)
    ensures ExtractMetadata(JoinWords([host, ident, user, stamp, zone, "\"-\"", status, size]) + tail)
            == Failure(IndexError)
  {
    assert IsWord("\"-\"");
    ExtractFromFields([host, ident, user, stamp, zone, "\"-\"", status, size], tail);
  }

  /** A common-log-format line whose request has two parts (`"verb path"`, as
      HTTP/0.9 sends it) has nine tokens, and token 8 is the size: the parser
      takes the size for the status code. */
  lemma ExtractTwoPartRequest(host: string, ident: string, user: string, stamp: string, zone: string,
                              verb: string, path: string, status: string, size: string, tail: string)
    requires IsWord(host) && IsWord(ident) && IsWord(user) && IsWord(stamp) && IsWord(zone)
    requires NoSpace(verb) && NoSpace(path)
    requires IsWord(status) && IsWord(size)
    requires AllSpace(tail)
    ensures ExtractMetadata(JoinWords([host, ident, user, "[" + stamp, zone + "]",
                                       "\"" + verb, path + "\"", status, size]) + tail)
            == Success((stamp, size))
  {
    assert NoSpace("[") && NoSpace("]") && NoSpace("\"");
    NoSpaceConcat("[", stamp);
    NoSpaceConcat(zone, "]");
    NoSpaceConcat("\"", verb);
    NoSpaceConcat(path, "\"");
    var fields := [host, ident, user, "[" + stamp, zone + "]", "\"" + verb, path + "\"", status, size];
    ExtractFromFields(fields, tail);
    assert fields[3][1..] == stamp;
  }

  /** The pairs of well-formed lines, in line order. */
  function Pairs(lines: seq<string>): (ps: seq<Pair>)
    requires forall i :: 0 <= i < |lines| ==> WellFormed(lines[i])
    ensures |ps| == |lines|
  {
    seq(|lines|, i requires 0 <= i < |lines| => ExtractMetadata(lines[i]).value)
  }
}
