/** The pieces of Rust's `str` and `BufRead` that the line-based codecs use:
    `trim`, `split` on a character, `splitn(2, _)` and `lines()`. */
module Strings {
  import opened Results
  import opened Seqs

  /** `char::is_whitespace`: the characters with the Unicode White_Space property. */
  predicate IsWhitespace(c: char) {
    || ('\t' <= c <= '\r')
    || c == ' '
    || c == '\U{85}'
    || c == '\U{A0}'
    || c == '\U{1680}'
    || ('\U{2000}' <= c <= '\U{200A}')
    || c == '\U{2028}'
    || c == '\U{2029}'
    || c == '\U{202F}'
    || c == '\U{205F}'
    || c == '\U{3000}'
  }

  /** Neither end of `s` is whitespace. */
  predicate IsTrimmed(s: string) {
    |s| == 0 || (!IsWhitespace(s[0]) && !IsWhitespace(s[|s| - 1]))
  }

  /** `str::trim_start`. */
  function TrimStart(s: string): (r: string)
    ensures |r| <= |s| && r == s[|s| - |r|..]
    ensures |r| == 0 || !IsWhitespace(r[0])
    ensures forall i :: 0 <= i < |s| - |r| ==> IsWhitespace(s[i])
  {
    if |s| > 0 && IsWhitespace(s[0]) then TrimStart(s[1..]) else s
  }

  /** `str::trim_end`. */
  function TrimEnd(s: string): (r: string)
    ensures |r| <= |s| && r == s[..|r|]
    ensures |r| == 0 || !IsWhitespace(r[|r| - 1])
    ensures forall i :: |r| <= i < |s| ==> IsWhitespace(s[i])
  {
    if |s| > 0 && IsWhitespace(s[|s| - 1]) then TrimEnd(s[..|s| - 1]) else s
  }

  /** `str::trim`: whitespace removed from both ends, and nothing else. */
  function Trim(s: string): (r: string)
    ensures IsTrimmed(r)
    ensures IsTrimmed(s) ==> r == s
    ensures |r| == 0 <==> forall i :: 0 <= i < |s| ==> IsWhitespace(s[i])
  {
    var t := TrimEnd(TrimStart(s));
    assert |TrimStart(s)| > 0 ==> !IsWhitespace(TrimStart(s)[0]);
    t
  }

  /** `r` is `s` with `i` characters of whitespace taken from its front
      and only whitespace taken from its back. */
  predicate IsMiddle(s: string, i: nat, r: string) {
    && i + |r| <= |s| && r == s[i..i + |r|]
    && (forall k :: 0 <= k < i ==> IsWhitespace(s[k]))
    && (forall k :: i + |r| <= k < |s| ==> IsWhitespace(s[k]))
  }

  /** What `trim` keeps is the input's middle: it starts where the leading
      whitespace ends, and only whitespace follows it. */
  lemma TrimMiddle(s: string)
    ensures IsMiddle(s, |s| - |TrimStart(s)|, Trim(s))
  {
    var t := TrimStart(s);
    var r := TrimEnd(t);
    assert Trim(s) == r;
    MiddleOf(s, t, r);
  }

  /** Leading whitespace cut by `t`, then trailing whitespace cut by `r`,
      leaves the middle of `s`. */
  lemma MiddleOf(s: string, t: string, r: string)
    requires |t| <= |s| && t == s[|s| - |t|..]
    requires forall i :: 0 <= i < |s| - |t| ==> IsWhitespace(s[i])
    requires |r| <= |t| && r == t[..|r|]
    requires forall j :: |r| <= j < |t| ==> IsWhitespace(t[j])
    ensures IsMiddle(s, |s| - |t|, r)
  {
    var i := |s| - |t|;
    forall k | i + |r| <= k < |s|
      ensures IsWhitespace(s[k])
    {
      assert s[k] == t[k - i];
    }
  }

  /** Leading whitespace in front of a trimmed string is dropped by `trim`. */
  lemma {:induction false} TrimPadded(pad: string, s: string)
    requires forall i :: 0 <= i < |pad| ==> IsWhitespace(pad[i])
    requires IsTrimmed(s)
    ensures Trim(pad + s) == s
    decreases |pad|
  {
    if |pad| > 0 {
      assert (pad + s)[1..] == pad[1..] + s;
      TrimPadded(pad[1..], s);
    } else {
      assert pad + s == s;
    }
  }

  /** `trim_end` stops at the last character that is not whitespace. */
  lemma {:induction false} TrimEndPadded(s: string, pad: string)
    requires |s| == 0 || !IsWhitespace(s[|s| - 1])
    requires forall i :: 0 <= i < |pad| ==> IsWhitespace(pad[i])
    ensures TrimEnd(s + pad) == s
    decreases |pad|
  {
    if |pad| == 0 {
      assert s + pad == s;
    } else {
      var t := s + pad;
      assert t[..|t| - 1] == s + pad[..|pad| - 1];
      TrimEndPadded(s, pad[..|pad| - 1]);
    }
  }

  /** Trailing whitespace behind a trimmed string is dropped by `trim`. */
  lemma TrimPaddedEnd(s: string, pad: string)
    requires IsTrimmed(s)
    requires forall i :: 0 <= i < |pad| ==> IsWhitespace(pad[i])
    ensures Trim(s + pad) == s
  {
    if |s| == 0 {
      assert s + pad == pad;
    } else {
      assert TrimStart(s + pad) == s + pad;
      TrimEndPadded(s, pad);
    }
  }

  /** Position of the first `c` in `s`, or `|s|` when there is none. */
  function Find(s: string, c: char): (i: nat)
    ensures i <= |s|
    ensures i < |s| ==> s[i] == c
    ensures forall k :: 0 <= k < i ==> s[k] != c
  {
    if |s| == 0 then 0 else if s[0] == c then 0 else 1 + Find(s[1..], c)
  }

  lemma FindAfterPrefix(a: string, c: char, b: string)
    requires c !in a
    ensures Find(a + [c] + b, c) == |a|
  {
    var s := a + [c] + b;
    assert s[|a|] == c;
    assert forall k :: 0 <= k < |a| ==> s[k] == a[k];
  }

  /** Splitting once at the first `c` of `a + [c] + b` when `a` has none. */
  lemma SplitOnceAfter(a: string, c: char, b: string)
    requires c !in a
    ensures SplitOnce(a + [c] + b, c) == (a, Some(b))
  {
    var s := a + [c] + b;
    FindAfterPrefix(a, c, b);
    assert s[..|a|] == a;
    assert s[|a| + 1..] == b;
  }

  /** The pieces joined back together with `sep` between consecutive ones. */
  function Join(parts: seq<string>, sep: char): string
  {
    if |parts| == 0 then ""
    else if |parts| == 1 then parts[0]
    else parts[0] + [sep] + Join(parts[1..], sep)
  }

  /** The last piece is joined on after a final separator. */
  lemma {:induction false} JoinSnoc(parts: seq<string>, sep: char)
    requires |parts| >= 2
    ensures Join(parts, sep) == Join(parts[..|parts| - 1], sep) + [sep] + parts[|parts| - 1]
  {
    if |parts| > 2 {
      JoinSnoc(parts[1..], sep);
      assert parts[1..][..|parts| - 2] == parts[..|parts| - 1][1..];
    } else {
      assert parts[..1] == [parts[0]];
    }
  }

  /** Joining two non-empty runs of pieces puts one separator between them. */
  lemma {:induction false} JoinConcat(a: seq<string>, b: seq<string>, sep: char)
    requires |a| >= 1 && |b| >= 1
    ensures Join(a + b, sep) == Join(a, sep) + [sep] + Join(b, sep)
  {
    if |a| == 1 {
      assert (a + b)[0] == a[0];
      assert (a + b)[1..] == b;
    } else {
      assert (a + b)[0] == a[0];
      assert (a + b)[1..] == a[1..] + b;
      JoinConcat(a[1..], b, sep);
    }
  }

  /** A character in none of the pieces and other than the separator is
      not in the joined text. */
  lemma {:induction false} JoinAvoids(parts: seq<string>, sep: char, c: char)
    requires c != sep
    requires forall i :: 0 <= i < |parts| ==> c !in parts[i]
    ensures c !in Join(parts, sep)
  {
    if |parts| > 1 {
      JoinAvoids(parts[1..], sep, c);
    }
  }

  /** Pieces joined with no whitespace at the front of the first or the end
      of the last give a trimmed text. */
  lemma JoinTrimmed(parts: seq<string>, sep: char)
    requires |parts| >= 2
    requires |parts[0]| > 0 && !IsWhitespace(parts[0][0])
    requires |parts[|parts| - 1]| > 0 && !IsWhitespace(parts[|parts| - 1][|parts[|parts| - 1]| - 1])
    ensures IsTrimmed(Join(parts, sep))
  {
    var j := Join(parts, sep);
    var last := parts[|parts| - 1];
    assert j[0] == parts[0][0];
    JoinSnoc(parts, sep);
    assert j[|j| - 1] == last[|last| - 1];
  }

  /** `str::split` on one character: the text between separators, at least
      one piece, none containing the separator. */
  function Split(s: string, sep: char): (parts: seq<string>)
    ensures |parts| >= 1
    ensures forall i :: 0 <= i < |parts| ==> sep !in parts[i]
    ensures Join(parts, sep) == s
    decreases |s|
  {
    var i := Find(s, sep);
    if i == |s| then
      [s]
    else
      var parts := [s[..i]] + Split(s[i + 1..], sep);
      assert parts[1..] == Split(s[i + 1..], sep);
      assert s == s[..i] + [sep] + s[i + 1..];
      parts
  }

  /** Splitting undoes joining pieces that do not contain the separator. */
  lemma {:induction false} SplitJoin(parts: seq<string>, sep: char)
    requires |parts| >= 1
    requires forall i :: 0 <= i < |parts| ==> sep !in parts[i]
    ensures Split(Join(parts, sep), sep) == parts
  {
    if |parts| == 1 {
      assert Find(parts[0], sep) == |parts[0]|;
    } else {
      var rest := Join(parts[1..], sep);
      assert Join(parts, sep) == parts[0] + [sep] + rest;
      SplitCons(parts[0], sep, rest);
      SplitJoin(parts[1..], sep);
      FrontAndRest(parts);
    }
  }

  /** A piece without the separator, followed by the separator, is split
      off first. */
  lemma SplitCons(a: string, sep: char, rest: string)
    requires sep !in a
    ensures Split(a + [sep] + rest, sep) == [a] + Split(rest, sep)
  {
    var s := a + [sep] + rest;
    FindAfterPrefix(a, sep, rest);
    assert s[..|a|] == a;
    assert s[|a| + 1..] == rest;
  }

  /** `str::splitn(2, sep)`: the text before the first `sep` and, when
      there is one, the text after it. */
  function SplitOnce(s: string, sep: char): (r: (string, Option<string>))
    ensures sep !in r.0
    ensures r.1.None? <==> sep !in s
    ensures r.1.Some? ==> s == r.0 + [sep] + r.1.value
    ensures r.1.None? ==> r.0 == s
  {
    var i := Find(s, sep);
    if i == |s| then (s, None)
    else
      assert s == s[..i] + [sep] + s[i + 1..];
      (s[..i], Some(s[i + 1..]))
  }

  function StripCarriageReturn(line: string): string {
    if |line| > 0 && line[|line| - 1] == '\r' then line[..|line| - 1] else line
  }

  /** `BufRead::lines`: the text split at each line feed, a carriage return
      in front of a line feed dropped, and no empty line after a final
      line feed. */
  function Lines(s: string): (ls: seq<string>)
    ensures forall i :: 0 <= i < |ls| ==> '\n' !in ls[i]
    ensures |s| == 0 <==> |ls| == 0
    decreases |s|
  {
    if |s| == 0 then []
    else
      var i := Find(s, '\n');
      if i == |s| then [s] else [StripCarriageReturn(s[..i])] + Lines(s[i + 1..])
  }

  /** Each line followed by a line feed, the way the writers emit them. */
  function Unlines(ls: seq<string>): string {
    if |ls| == 0 then "" else ls[0] + "\n" + Unlines(ls[1..])
  }

  /** A line a writer can emit and `lines()` gives back unchanged. */
  predicate IsPlainLine(l: string) {
    '\n' !in l && (|l| == 0 || l[|l| - 1] != '\r')
  }

  /** A line written with its line feed comes back first. */
  lemma LinesCons(l: string, rest: string)
    requires IsPlainLine(l)
    ensures Lines(l + "\n" + rest) == [l] + Lines(rest)
  {
    var s := l + "\n" + rest;
    assert s == l + ['\n'] + rest;
    FindAfterPrefix(l, '\n', rest);
    assert s[..|l|] == l;
    assert s[|l| + 1..] == rest;
  }

  /** `lines()` gives back what was written one line at a time, followed by
      an unterminated last line when there is one. */
  lemma {:induction false} LinesOfUnlines(ls: seq<string>, last: string)
    requires forall i :: 0 <= i < |ls| ==> IsPlainLine(ls[i])
    requires '\n' !in last
    ensures Lines(Unlines(ls) + last) == ls + (if |last| == 0 then [] else [last])
  {
    var tail: seq<string> := if |last| == 0 then [] else [last];
    if |ls| == 0 {
      LinesOfLast(last);
      assert ls + tail == tail;
    } else {
      assert IsPlainLine(ls[0]);
      LinesOfUnlines(ls[1..], last);
      UnlinesStep(ls, last);
      ConsAppend(ls, tail);
    }
  }

  /** Text without a line feed is one line, or none when it is empty. */
  lemma LinesOfLast(last: string)
    requires '\n' !in last
    ensures Lines(Unlines([]) + last) == if |last| == 0 then [] else [last]
  {
    assert Unlines([]) + last == last;
    if |last| > 0 {
      assert Find(last, '\n') == |last|;
    }
  }

  /** The first written line comes back first. */
  lemma UnlinesStep(ls: seq<string>, last: string)
    requires |ls| > 0 && IsPlainLine(ls[0])
    ensures Lines(Unlines(ls) + last) == [ls[0]] + Lines(Unlines(ls[1..]) + last)
  {
    var rest := Unlines(ls[1..]) + last;
    assert Unlines(ls) + last == ls[0] + "\n" + rest;
    LinesCons(ls[0], rest);
  }

  /** Writing each line with its line feed is joining them and ending
      with one more line feed. */
  lemma {:induction false} UnlinesAsJoin(ls: seq<string>)
    requires |ls| >= 1
    ensures Unlines(ls) == Join(ls, '\n') + "\n"
  {
    if |ls| == 1 {
      assert Unlines(ls[1..]) == "";
    } else {
      UnlinesAsJoin(ls[1..]);
    }
  }

  /** Lines joined by line feeds are the lines written one at a time, with
      the last left unterminated. */
  lemma {:induction false} JoinAsUnlines(ls: seq<string>)
    requires |ls| >= 1
    ensures Join(ls, '\n') == Unlines(ls[..|ls| - 1]) + ls[|ls| - 1]
  {
    if |ls| > 1 {
      JoinAsUnlines(ls[1..]);
      assert ls[1..][..|ls| - 2] == ls[1..|ls| - 1];
      assert ls[..|ls| - 1][1..] == ls[1..|ls| - 1];
    }
  }
  /** `lines()` splits plain lines joined by line feeds back apart, as long
      as the last is not empty. */
  lemma LinesOfJoin(ls: seq<string>)
    requires |ls| >= 1 && |ls[|ls| - 1]| > 0
    requires forall i :: 0 <= i < |ls| ==> IsPlainLine(ls[i])
    ensures Lines(Join(ls, '\n')) == ls
  {
    var n := |ls|;
    JoinAsUnlines(ls);
    PlainFront(ls, ls[..n - 1]);
    LinesOfUnlines(ls[..n - 1], ls[n - 1]);
    FrontAndLast(ls);
  }

  lemma PlainFront(ls: seq<string>, front: seq<string>)
    requires front <= ls
    requires forall i :: 0 <= i < |ls| ==> IsPlainLine(ls[i])
    ensures forall i :: 0 <= i < |front| ==> IsPlainLine(front[i])
  {
  }
}
