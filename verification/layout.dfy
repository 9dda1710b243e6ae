/** Lines grouped in blocks, the way the text codec writes records: each
    block's lines followed by an empty line, and the lines `lines()` reads
    back once the whole text is trimmed. Nothing here knows about records. */
module Layout {
  import opened Seqs
  import opened Strings

  /** Each block written line by line and followed by an empty line. */
  function Stanzas(bs: seq<seq<string>>): string
    decreases |bs|
  {
    if |bs| == 0 then "" else Unlines(bs[0]) + "\n" + Stanzas(bs[1..])
  }

  /** Blocks of lines with one empty line between consecutive blocks. */
  function Paragraphs(bs: seq<seq<string>>): seq<string>
    decreases |bs|
  {
    if |bs| == 0 then []
    else if |bs| == 1 then bs[0]
    else bs[0] + [""] + Paragraphs(bs[1..])
  }

  /** Every line is one `lines()` gives back unchanged. */
  predicate AllPlain(ls: seq<string>) {
    forall i :: 0 <= i < |ls| ==> IsPlainLine(ls[i])
  }

  /** A block of at least two lines whose first line starts, and whose
      last line ends, with a character that is not whitespace. */
  predicate Solid(b: seq<string>) {
    && |b| >= 2
    && |b[0]| > 0 && !IsWhitespace(b[0][0])
    && |b[|b| - 1]| > 0 && !IsWhitespace(b[|b| - 1][|b[|b| - 1]| - 1])
  }

  /** Trimming the written blocks removes the empty line after the last
      block and nothing else, and `lines()` then gives back the paragraphs. */
  lemma StanzasLines(bs: seq<seq<string>>)
    requires |bs| >= 1
    requires forall i :: 0 <= i < |bs| ==> Solid(bs[i]) && AllPlain(bs[i])
    ensures Trim(Stanzas(bs)) == Join(Paragraphs(bs), '\n')
    ensures Lines(Trim(Stanzas(bs))) == Paragraphs(bs)
  {
    StanzasTrimmed(bs);
    ParagraphsLines(bs);
  }

  lemma StanzasTrimmed(bs: seq<seq<string>>)
    requires |bs| >= 1
    requires forall i :: 0 <= i < |bs| ==> Solid(bs[i])
    ensures Trim(Stanzas(bs)) == Join(Paragraphs(bs), '\n')
  {
    StanzasAsJoin(bs);
    ParagraphsTrimmed(bs);
    TrimPadding(Join(Paragraphs(bs), '\n'));
  }

  lemma TrimPadding(s: string)
    requires IsTrimmed(s)
    ensures Trim(s + "\n\n") == s
  {
    TrimPaddedEnd(s, "\n\n");
  }

  lemma ParagraphsLines(bs: seq<seq<string>>)
    requires |bs| >= 1
    requires forall i :: 0 <= i < |bs| ==> Solid(bs[i]) && AllPlain(bs[i])
    ensures Lines(Join(Paragraphs(bs), '\n')) == Paragraphs(bs)
  {
    var last := bs[|bs| - 1];
    assert Solid(last);
    SolidHasLines(bs);
    ParagraphsEndWith(bs);
    PlainLines(Paragraphs(bs), last);
  }

  lemma ParagraphsEndWith(bs: seq<seq<string>>)
    requires |bs| >= 1
    requires forall i :: 0 <= i < |bs| ==> |bs[i]| >= 2 && AllPlain(bs[i])
    ensures EndsWith(Paragraphs(bs), bs[|bs| - 1])
  {
    ParagraphsEnds(bs);
    ParagraphsPlain(bs);
  }

  /** A plain sequence of lines whose last line is that of a solid block. */
  predicate EndsWith(p: seq<string>, last: seq<string>) {
    |p| >= 1 && |last| >= 1 && p[|p| - 1] == last[|last| - 1] && AllPlain(p)
  }

  lemma PlainLines(p: seq<string>, last: seq<string>)
    requires Solid(last) && EndsWith(p, last)
    ensures Lines(Join(p, '\n')) == p
  {
    LinesOfJoin(p);
  }

  /** The paragraphs joined by line feeds have no whitespace at either end. */
  lemma ParagraphsTrimmed(bs: seq<seq<string>>)
    requires |bs| >= 1
    requires forall i :: 0 <= i < |bs| ==> Solid(bs[i])
    ensures IsTrimmed(Join(Paragraphs(bs), '\n'))
  {
    var first, last := bs[0], bs[|bs| - 1];
    assert Solid(first) && Solid(last);
    SolidHasLines(bs);
    ParagraphsEdged(bs);
    EdgesTrimmed(Paragraphs(bs), first, last);
  }

  lemma ParagraphsEdged(bs: seq<seq<string>>)
    requires |bs| >= 1
    requires forall i :: 0 <= i < |bs| ==> |bs[i]| >= 2
    ensures Edged(Paragraphs(bs), bs[0], bs[|bs| - 1])
  {
    ParagraphsEnds(bs);
  }

  lemma SolidHasLines(bs: seq<seq<string>>)
    requires forall i :: 0 <= i < |bs| ==> Solid(bs[i])
    ensures forall i :: 0 <= i < |bs| ==> |bs[i]| >= 2
  {
  }

  /** At least two lines, starting with the first line of one block and
      ending with the last line of another. */
  predicate Edged(p: seq<string>, first: seq<string>, last: seq<string>) {
    && |p| >= 2 && |first| >= 1 && |last| >= 1
    && p[0] == first[0] && p[|p| - 1] == last[|last| - 1]
  }

  lemma EdgesTrimmed(p: seq<string>, first: seq<string>, last: seq<string>)
    requires Solid(first) && Solid(last) && Edged(p, first, last)
    ensures IsTrimmed(Join(p, '\n'))
  {
    JoinTrimmed(p, '\n');
  }

  /** Blocks written line by line with an empty line after each are their
      paragraphs joined by line feeds, followed by two line feeds. */
  lemma {:induction false} StanzasAsJoin(bs: seq<seq<string>>)
    requires |bs| >= 1
    requires forall i :: 0 <= i < |bs| ==> Solid(bs[i])
    ensures Stanzas(bs) == Join(Paragraphs(bs), '\n') + "\n\n"
    decreases |bs|
  {
    if |bs| == 1 {
      assert Stanzas(bs[1..]) == "";
      LastBlockAsJoin(bs[0]);
    } else {
      var rest := bs[1..];
      SolidTail(bs);
      StanzasAsJoin(rest);
      ParagraphsEnds(rest);
      BlockAsJoin(bs[0], Paragraphs(rest));
    }
  }

  lemma SolidTail(bs: seq<seq<string>>)
    requires |bs| >= 1
    requires forall i :: 0 <= i < |bs| ==> Solid(bs[i])
    ensures forall i :: 0 <= i < |bs| - 1 ==> Solid(bs[1..][i])
  {
  }

  lemma LastBlockAsJoin(ls: seq<string>)
    requires |ls| >= 1
    ensures Unlines(ls) + "\n" + "" == Join(ls, '\n') + "\n\n"
  {
    UnlinesAsJoin(ls);
  }

  lemma BlockAsJoin(ls: seq<string>, rest: seq<string>)
    requires |ls| >= 1 && |rest| >= 1
    ensures Unlines(ls) + "\n" + (Join(rest, '\n') + "\n\n") == Join(ls + [""] + rest, '\n') + "\n\n"
  {
    var t := [""] + rest;
    assert t[0] == "" && t[1..] == rest;
    assert Join(t, '\n') == "" + ['\n'] + Join(rest, '\n');
    UnlinesAsJoin(ls);
    Associative(ls, [""], rest);
    JoinConcat(ls, t, '\n');
    GlueBlocks(Join(ls, '\n'), Join(rest, '\n'));
  }

  lemma GlueBlocks(a: string, b: string)
    ensures (a + "\n") + "\n" + (b + "\n\n") == (a + ['\n'] + ("" + ['\n'] + b)) + "\n\n"
  {
  }

  /** Blocks of `n` lines make `n + 1` lines per block, less one. */
  lemma {:induction false} ParagraphsLength(bs: seq<seq<string>>, n: nat)
    requires forall i :: 0 <= i < |bs| ==> |bs[i]| == n
    ensures |bs| > 0 ==> |Paragraphs(bs)| + 1 == (n + 1) * |bs|
    decreases |bs|
  {
    if |bs| > 1 {
      var rest := bs[1..];
      assert forall i :: 0 <= i < |rest| ==> |rest[i]| == n by {
        forall i | 0 <= i < |rest|
          ensures |rest[i]| == n
        {
          assert rest[i] == bs[i + 1];
        }
      }
      ParagraphsLength(rest, n);
      assert (n + 1) * |bs| == (n + 1) * |rest| + (n + 1);
    }
  }

  /** The paragraphs start with the first line of the first block and end
      with the last line of the last. */
  lemma {:induction false} ParagraphsEnds(bs: seq<seq<string>>)
    requires |bs| >= 1
    requires forall i :: 0 <= i < |bs| ==> |bs[i]| >= 1
    ensures |Paragraphs(bs)| >= |bs[0]|
    ensures Paragraphs(bs)[0] == bs[0][0]
    ensures Paragraphs(bs)[|Paragraphs(bs)| - 1] == bs[|bs| - 1][|bs[|bs| - 1]| - 1]
    decreases |bs|
  {
    if |bs| > 1 {
      var rest := bs[1..];
      assert forall i :: 0 <= i < |rest| ==> |rest[i]| >= 1 by {
        forall i | 0 <= i < |rest|
          ensures |rest[i]| >= 1
        {
          assert rest[i] == bs[i + 1];
        }
      }
      ParagraphsEnds(rest);
      assert rest[|rest| - 1] == bs[|bs| - 1];
      GlueEnds(bs[0], Paragraphs(rest));
    }
  }

  lemma GlueEnds(a: seq<string>, b: seq<string>)
    requires |a| >= 1 && |b| >= 1
    ensures (a + [""] + b)[0] == a[0]
    ensures (a + [""] + b)[|a + [""] + b| - 1] == b[|b| - 1]
  {
  }

  /** When every line of every block is plain, so is every line of the
      paragraphs: the empty line between blocks is plain too. */
  lemma {:induction false} ParagraphsPlain(bs: seq<seq<string>>)
    requires forall i :: 0 <= i < |bs| ==> AllPlain(bs[i])
    ensures AllPlain(Paragraphs(bs))
    decreases |bs|
  {
    if |bs| > 1 {
      var rest := bs[1..];
      assert forall i :: 0 <= i < |rest| ==> AllPlain(rest[i]) by {
        forall i | 0 <= i < |rest|
          ensures AllPlain(rest[i])
        {
          assert rest[i] == bs[i + 1];
        }
      }
      ParagraphsPlain(rest);
      assert AllPlain(bs[0]);
      PlainConcat(bs[0], [""], Paragraphs(rest));
    } else if |bs| == 1 {
      assert AllPlain(bs[0]);
    }
  }

  lemma PlainConcat(a: seq<string>, b: seq<string>, c: seq<string>)
    requires AllPlain(a) && AllPlain(b) && AllPlain(c)
    ensures AllPlain(a + b + c)
  {
  }
}
