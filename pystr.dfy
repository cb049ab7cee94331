/** The parts of Python's `str` that the parser relies on: `split()` on
    whitespace, `split(sep)` on one character, and the `<` ordering. */
module PyStr {

  /** `c.isspace()` as `str.split()` uses it: the ASCII separators and the
      Unicode space characters. */
  predicate IsSpace(c: char) {
    || c == ' '
    || ('\t' <= c <= '\r')
    || ('\U{1C}' <= c <= '\U{1F}')
    || c == '\U{85}'
    || c == '\U{A0}'
    || c == '\U{1680}'
    || ('\U{2000}' <= c <= '\U{200A}')
    || c == '\U{2028}'
    || c == '\U{2029}'
    || c == '\U{202F}'
    || c == '\U{205F}'
    || c == '\U{3000}'
  }

  predicate NoSpace(w: string) {
    forall k :: 0 <= k < |w| ==> !IsSpace(w[k])
  }

  predicate AllSpace(s: string) {
    forall k :: 0 <= k < |s| ==> IsSpace(s[k])
  }

  /** Gluing whitespace-free pieces keeps them whitespace-free. */
  lemma NoSpaceConcat(a: string, b: string)
    requires NoSpace(a) && NoSpace(b)
    ensures NoSpace(a + b)
  {
    forall k | 0 <= k < |a + b|
      ensures !IsSpace((a + b)[k])
    {
      if k >= |a| {
        assert (a + b)[k] == b[k - |a|];
      }
    }
  }

  /** A token `str.split()` can return: non-empty, no whitespace. */
  predicate IsWord(w: string) {
    w != [] && NoSpace(w)
  }

  /** Length of the longest whitespace-free prefix of `s`. */
  function WordLength(s: string): (n: nat)
    ensures n <= |s|
    ensures forall k :: 0 <= k < n ==> !IsSpace(s[k])
    ensures n < |s| ==> IsSpace(s[n])
  {
    if s == [] || IsSpace(s[0]) then 0 else 1 + WordLength(s[1..])
  }

  /** `s.split()`: the maximal runs of non-whitespace characters, left to right. */
  function Split(s: string): (r: seq<string>)
    ensures forall i {:trigger r[i]} :: 0 <= i < |r| ==> IsWord(r[i])
    decreases |s|
  {
    if s == [] then []
    else if IsSpace(s[0]) then Split(s[1..])
    else
      var n := WordLength(s);
      [s[..n]] + Split(s[n..])
  }

  /** `" ".join(ws)`. */
  function JoinWords(ws: seq<string>): string {
    if ws == [] then ""
    else if |ws| == 1 then ws[0]
    else ws[0] + " " + JoinWords(ws[1..])
  }

  lemma {:induction false} SplitAllSpace(s: string)
    requires AllSpace(s)
    ensures Split(s) == []
    decreases |s|
  {
    if s != [] {
      SplitAllSpace(s[1..]);
    }
  }

  lemma {:induction false} WordLengthOf(w: string, rest: string)
    requires NoSpace(w)
    requires rest == [] || IsSpace(rest[0])
    ensures WordLength(w + rest) == |w|
  {
    if w != [] {
      assert (w + rest)[1..] == w[1..] + rest;
      WordLengthOf(w[1..], rest);
    }
  }

  /** A word followed by whitespace (or nothing) is split off as one token. */
  lemma SplitWordThen(w: string, rest: string)
    requires IsWord(w)
    requires rest == [] || IsSpace(rest[0])
    ensures Split(w + rest) == [w] + Split(rest)
  {
    WordLengthOf(w, rest);
    var s := w + rest;
    assert s[..|w|] == w;
    assert s[|w|..] == rest;
  }

  /** Round trip: splitting words joined by spaces, with any trailing
      whitespace (such as the newline `readlines` keeps), gives the words back. */
  lemma {:induction false} SplitJoinWords(ws: seq<string>, tail: string)
    requires forall i {:trigger ws[i]} :: 0 <= i < |ws| ==> IsWord(ws[i])
    requires AllSpace(tail)
    ensures Split(JoinWords(ws) + tail) == ws
  {
    if ws == [] {
      assert JoinWords(ws) + tail == tail;
      SplitAllSpace(tail);
    } else if |ws| == 1 {
      SplitWordThen(ws[0], tail);
      SplitAllSpace(tail);
    } else {
      var rest := JoinWords(ws[1..]) + tail;
      assert JoinWords(ws) + tail == ws[0] + (" " + rest);
      SplitWordThen(ws[0], " " + rest);
      assert (" " + rest)[1..] == rest;
      SplitJoinWords(ws[1..], tail);
    }
  }

  /** The words `ws`, each followed by its own run of whitespace `gaps[i]`. */
  function Spaced(ws: seq<string>, gaps: seq<string>): string
    requires |gaps| == |ws|
  {
    if ws == [] then "" else ws[0] + gaps[0] + Spaced(ws[1..], gaps[1..])
  }

  /** Whitespace runs that keep the words apart: all whitespace, and only the
      run after the last word may be empty. */
  predicate Gaps(ws: seq<string>, gaps: seq<string>) {
    && |gaps| == |ws|
    && (forall i :: 0 <= i < |gaps| ==> AllSpace(gaps[i]))
    && (forall i :: 0 <= i < |gaps| - 1 ==> gaps[i] != [])
  }

  /** Leading whitespace does not change the split. */
  lemma {:induction false} SplitLeadSpace(lead: string, s: string)
    requires AllSpace(lead)
    ensures Split(lead + s) == Split(s)
    decreases |lead|
  {
    if lead != [] {
      assert (lead + s)[0] == lead[0];
      assert (lead + s)[1..] == lead[1..] + s;
      SplitLeadSpace(lead[1..], s);
    } else {
      assert lead + s == s;
    }
  }

  /** `str.split()` in full: any string made of leading whitespace and the
      words `ws`, each followed by whitespace (at least one character between
      two words), splits into exactly `ws`. */
  lemma {:induction false} SplitSpaced(lead: string, ws: seq<string>, gaps: seq<string>)
    requires AllSpace(lead)
    requires forall i {:trigger ws[i]} :: 0 <= i < |ws| ==> IsWord(ws[i])
    requires Gaps(ws, gaps)
    ensures Split(lead + Spaced(ws, gaps)) == ws
    decreases |ws|
  {
    if ws == [] {
      assert lead + Spaced(ws, gaps) == lead;
      SplitAllSpace(lead);
    } else {
      var rest := Spaced(ws[1..], gaps[1..]);
      assert lead + Spaced(ws, gaps) == lead + (ws[0] + (gaps[0] + rest));
      SplitLeadSpace(lead, ws[0] + (gaps[0] + rest));
      assert AllSpace(gaps[0]);
      if |ws| == 1 {
        assert rest == "";
      } else {
        assert gaps[0] != [];
      }
      SplitWordThen(ws[0], gaps[0] + rest);
      assert Gaps(ws[1..], gaps[1..]) by {
        forall i | 0 <= i < |gaps[1..]|
          ensures AllSpace(gaps[1..][i])
        {
          assert gaps[1..][i] == gaps[i + 1];
        }
      }
      SplitSpaced(gaps[0], ws[1..], gaps[1..]);
    }
  }

  /** A string that starts with whitespace (or is empty) cannot have its
      first word at its very start. */
  lemma GapFirst(t: string, lead: string, ws: seq<string>, gaps: seq<string>)
    requires t == [] || IsSpace(t[0])
    requires forall i {:trigger ws[i]} :: 0 <= i < |ws| ==> IsWord(ws[i])
    requires Gaps(ws, gaps) && t == lead + Spaced(ws, gaps)
    ensures ws != [] ==> lead != []
  {
  }

  /** `s` is the whitespace `lead`, then the tokens of its split, each
      followed by its whitespace run in `gaps`. */
  predicate Covers(s: string, lead: string, gaps: seq<string>) {
    AllSpace(lead) && Gaps(Split(s), gaps) && s == lead + Spaced(Split(s), gaps)
  }

  /** Conversely, every string is leading whitespace followed by the tokens
      of its split, each followed by whitespace: the tokens are the maximal
      runs of non-whitespace characters. */
  lemma {:induction false} SplitCovers(s: string)
    ensures exists lead, gaps :: Covers(s, lead, gaps)
    decreases |s|
  {
    if s == [] {
      assert Covers(s, "", []);
    } else if IsSpace(s[0]) {
      SplitCovers(s[1..]);
      var lead, gaps :| Covers(s[1..], lead, gaps);
      assert s == [s[0]] + s[1..];
      assert Covers(s, [s[0]] + lead, gaps);
    } else {
      var n := WordLength(s);
      SplitCovers(s[n..]);
      var lead, gaps :| Covers(s[n..], lead, gaps);
      assert IsWord(s[..n]);
      SplitWordCovers(s[..n], s[n..], lead, gaps);
      assert s == s[..n] + s[n..];
    }
  }

  /** A word and its whitespace run put in front of gapped words. */
  lemma GapsCons(w: string, ws: seq<string>, gap: string, gaps: seq<string>)
    requires Gaps(ws, gaps) && AllSpace(gap) && (ws != [] ==> gap != [])
    ensures Gaps([w] + ws, [gap] + gaps)
    ensures Spaced([w] + ws, [gap] + gaps) == w + gap + Spaced(ws, gaps)
  {
    var gaps' := [gap] + gaps;
    forall i | 0 <= i < |gaps'|
      ensures AllSpace(gaps'[i])
    {
      if i > 0 { assert gaps'[i] == gaps[i - 1]; }
    }
    forall i | 0 <= i < |gaps'| - 1
      ensures gaps'[i] != []
    {
      if i > 0 { assert gaps'[i] == gaps[i - 1]; }
    }
    assert ([w] + ws)[1..] == ws && gaps'[1..] == gaps;
  }

  /** The step of `SplitCovers` past a word: the whitespace before the next
      word becomes the word's gap. */
  lemma SplitWordCovers(w: string, t: string, lead: string, gaps: seq<string>)
    requires IsWord(w) && (t == [] || IsSpace(t[0]))
    requires Covers(t, lead, gaps)
    ensures Covers(w + t, "", [lead] + gaps)
  {
    var ws := Split(t);
    GapFirst(t, lead, ws, gaps);
    GapsCons(w, ws, lead, gaps);
    SplitWordThen(w, t);
    assert w + t == "" + (w + lead + Spaced(ws, gaps));
  }

  /** `s.split(sep)`: the fields between occurrences of `sep`, empty ones kept. */
  function SplitOn(s: string, sep: char): (r: seq<string>)
    ensures |r| >= 1
    ensures |r| == 1 <==> sep !in s
    ensures forall i :: 0 <= i < |r| ==> sep !in r[i]
  {
    if s == [] then [""]
    else
      var rest := SplitOn(s[1..], sep);
      if s[0] == sep then [""] + rest
      else [[s[0]] + rest[0]] + rest[1..]
  }

  /** `sep.join(fs)`. */
  function JoinOn(fs: seq<string>, sep: char): string
    requires |fs| >= 1
  {
    if |fs| == 1 then fs[0] else fs[0] + [sep] + JoinOn(fs[1..], sep)
  }

  lemma {:induction false} JoinSplitOn(s: string, sep: char)
    ensures JoinOn(SplitOn(s, sep), sep) == s
  {
    if s != [] {
      var rest := SplitOn(s[1..], sep);
      JoinSplitOn(s[1..], sep);
      if s[0] != sep {
        var fs := [[s[0]] + rest[0]] + rest[1..];
        if |rest| > 1 {
          assert fs[1..] == rest[1..];
          assert JoinOn(rest, sep) == rest[0] + [sep] + JoinOn(rest[1..], sep);
        }
        assert JoinOn(fs, sep) == [s[0]] + JoinOn(rest, sep);
      }
    }
  }

  lemma {:induction false} SplitOnField(a: string, sep: char)
    requires sep !in a
    ensures SplitOn(a, sep) == [a]
  {
    if a != [] {
      SplitOnField(a[1..], sep);
      assert [a[0]] + a[1..] == a;
    }
  }

  /** A field free of `sep`, then `sep`, is split off first. */
  lemma {:induction false} SplitOnPrefix(a: string, sep: char, b: string)
    requires sep !in a
    ensures SplitOn(a + [sep] + b, sep) == [a] + SplitOn(b, sep)
  {
    var s := a + [sep] + b;
    if a == [] {
      assert s[0] == sep && s[1..] == b;
    } else {
      assert s[0] == a[0] != sep;
      assert s[1..] == a[1..] + [sep] + b;
      SplitOnPrefix(a[1..], sep, b);
      var rest := SplitOn(s[1..], sep);
      assert rest == [a[1..]] + SplitOn(b, sep);
      assert SplitOn(s, sep) == [[a[0]] + rest[0]] + rest[1..];
      assert [a[0]] + a[1..] == a;
    }
  }

  /** Round trip the other way: fields free of `sep`, joined, split back. */
  lemma {:induction false} SplitJoinOn(fs: seq<string>, sep: char)
    requires |fs| >= 1
    requires forall i :: 0 <= i < |fs| ==> sep !in fs[i]
    ensures SplitOn(JoinOn(fs, sep), sep) == fs
  {
    if |fs| == 1 {
      SplitOnField(fs[0], sep);
    } else {
      SplitOnPrefix(fs[0], sep, JoinOn(fs[1..], sep));
      SplitJoinOn(fs[1..], sep);
    }
  }

  /** Python's `a < b` on strings: code point by code point, a proper prefix first. */
  predicate StrLt(a: string, b: string) {
    if a == [] then b != []
    else if b == [] then false
    else if a[0] != b[0] then a[0] < b[0]
    else StrLt(a[1..], b[1..])
  }

  predicate StrLe(a: string, b: string) {
    a == b || StrLt(a, b)
  }

  lemma {:induction false} StrLtIrreflexive(a: string)
    ensures !StrLt(a, a)
  {
    if a != [] {
      StrLtIrreflexive(a[1..]);
    }
  }

  lemma {:induction false} StrLtTransitive(a: string, b: string, c: string)
    requires StrLt(a, b) && StrLt(b, c)
    ensures StrLt(a, c)
  {
    if a != [] && a[0] == b[0] && b[0] == c[0] {
      StrLtTransitive(a[1..], b[1..], c[1..]);
    }
  }

  lemma {:induction false} StrLtTotal(a: string, b: string)
    ensures a == b || StrLt(a, b) || StrLt(b, a)
  {
    if a != [] && b != [] && a[0] == b[0] {
      StrLtTotal(a[1..], b[1..]);
      if a[1..] == b[1..] {
        assert a == [a[0]] + a[1..] && b == [b[0]] + b[1..];
      }
    }
  }

  lemma StrLtAsymmetric(a: string, b: string)
    requires StrLt(a, b)
    ensures !StrLt(b, a)
  {
    if StrLt(b, a) {
      StrLtTransitive(a, b, a);
      StrLtIrreflexive(a);
    }
  }

  lemma StrLeLtTransitive(a: string, b: string, c: string)
    requires StrLe(a, b) && StrLt(b, c)
    ensures StrLt(a, c)
  {
    if a != b {
      StrLtTransitive(a, b, c);
    }
  }
}
