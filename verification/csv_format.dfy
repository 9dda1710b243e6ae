/** The comma-separated format: a header line, then one line per record
    with the eight fields in header order. Fields are not quoted, so a
    description holding a comma or a line break does not survive. The
    input is taken as already-decoded text. */
module CsvFormat {
  import opened Bytes
  import opened Seqs
  import opened Results
  import opened Errors
  import opened Model
  import opened Strings
  import opened Decimal

  /** The column names, in the order the fields are written and read. */
  const COLUMNS: seq<string> :=
    ["TX_ID", "TX_TYPE", "FROM_USER_ID", "TO_USER_ID", "AMOUNT", "TIMESTAMP", "STATUS", "DESCRIPTION"]

  /** The first line `write_to` writes. */
  const HEADER: string := Join(COLUMNS, ',')

  // Writing

  /** The eight fields of a record as `write_to` prints them. */
  function Fields(r: Record): (fs: seq<string>)
    ensures |fs| == 8
  {
    [Show(r.txId), TypeToStr(r.txType), Show(r.fromUserId), Show(r.toUserId),
     Show(r.amount), Show(r.timestamp), StatusToStr(r.status), r.description]
  }

  /** One record's line, without its line feed: the fields joined by
      commas. */
  function Row(r: Record): string {
    Join(Fields(r), ',')
  }

  function Rows(rs: seq<Record>): (ls: seq<string>)
    ensures |ls| == |rs|
    ensures forall i :: 0 <= i < |rs| ==> ls[i] == Row(rs[i])
  {
    if |rs| == 0 then [] else [Row(rs[0])] + Rows(rs[1..])
  }

  /** `write_to`: the header line, then every record's line, each ended
      by a line feed. */
  function Encode(rs: seq<Record>): string {
    HEADER + "\n" + Unlines(Rows(rs))
  }

  // Reading

  /** What is left after `read_line` has taken the header: everything after
      the first line feed, or nothing when there is none. */
  function SkipHeader(s: string): (rest: string)
    ensures |rest| <= |s| && rest == s[|s| - |rest|..]
  {
    var i := Find(s, '\n');
    if i == |s| then "" else s[i + 1..]
  }

  /** The `i`-th field of a split line, when the line has one. */
  function Field(fs: seq<string>, i: nat): Option<string> {
    if i < |fs| then Some(fs[i]) else None
  }

  function Require(field: Option<string>): (r: Result<string, ParseError>)
    ensures r.Ok? <==> field.Some?
    ensures r.Ok? ==> r.value == field.value
    ensures r.Err? ==> r.error == MalformedLine
  {
    match field
    case Some(v) => Ok(v)
    case None => Err(MalformedLine)
  }

  /** `parse_number`: a missing field is a malformed line, a field that is
      not a `u64` an invalid number. */
  function ParseNumber(field: Option<string>): (r: Result<u64, ParseError>)
    ensures r.Ok? <==> field.Some? && ParseU64(field.value).Some?
    ensures r.Ok? ==> ParseU64(field.value) == Some(r.value)
    ensures field.None? ==> r == Err(MalformedLine)
    ensures field.Some? && ParseU64(field.value).None? ==> r == Err(InvalidNumber)
  {
    match field
    case None => Err(MalformedLine)
    case Some(text) =>
      match ParseU64(text)
      case None => Err(InvalidNumber)
      case Some(v) => Ok(v)
  }

  /** One non-blank, trimmed line: its comma-separated fields read in
      order. */
  function ParseLine(line: string): (r: Result<Record, ParseError>) {
    ParseFields(Split(line, ','))
  }

  /** The fields of a line read in order, and a ninth field refused. */
  function ParseFields(fs: seq<string>): (r: Result<Record, ParseError>) {
    var txId :- ParseNumber(Field(fs, 0));
    var typeName :- Require(Field(fs, 1));
    var txType :- ParseTypeName(typeName);
    var fromUserId :- ParseNumber(Field(fs, 2));
    var toUserId :- ParseNumber(Field(fs, 3));
    var amount :- ParseNumber(Field(fs, 4));
    var timestamp :- ParseNumber(Field(fs, 5));
    var statusName :- Require(Field(fs, 6));
    var status :- ParseStatusName(statusName);
    var description :- Require(Field(fs, 7));
    if |fs| > 8 then Err(MalformedLine)
    else Ok(Record(txId, txType, fromUserId, toUserId, amount, timestamp, status, description))
  }

  /** The lines after the header: each trimmed, blank ones skipped, the
      rest parsed in order until the first failure. */
  function DecodeLines(ls: seq<string>): (r: Result<seq<Record>, ParseError>)
    ensures r.Ok? ==> |r.value| <= |ls|
  {
    if |ls| == 0 then Ok([])
    else
      var line := Trim(ls[0]);
      if |line| == 0 then DecodeLines(ls[1..])
      else
        var record :- ParseLine(line);
        var rest :- DecodeLines(ls[1..]);
        Ok([record] + rest)
  }

  /** `read_from`. */
  function Decode(s: string): Result<seq<Record>, ParseError> {
    DecodeLines(Lines(SkipHeader(s)))
  }

  // Properties of the codec

  /** What a split line must hold for it to be read as `r`: exactly eight
      fields, each spelling the corresponding part of `r`. */
  predicate Spells(fs: seq<string>, r: Record) {
    && |fs| == 8
    && ParseU64(fs[0]) == Some(r.txId)
    && TypeParse(fs[1]) == Ok(r.txType)
    && ParseU64(fs[2]) == Some(r.fromUserId)
    && ParseU64(fs[3]) == Some(r.toUserId)
    && ParseU64(fs[4]) == Some(r.amount)
    && ParseU64(fs[5]) == Some(r.timestamp)
    && StatusParse(fs[6]) == Ok(r.status)
    && fs[7] == r.description
  }

  /** Fields are read as a record only when they spell that record. */
  lemma ParseFieldsSound(fs: seq<string>)
    ensures ParseFields(fs).Ok? ==> Spells(fs, ParseFields(fs).value)
  {
  }

  /** Fields that spell a record are read as that record. */
  lemma ParseFieldsComplete(fs: seq<string>, r: Record)
    requires Spells(fs, r)
    ensures ParseFields(fs) == Ok(r)
  {
  }

  /** Whether field `i` of a split line (in reading order) is present and
      well formed. */
  predicate FieldValid(fs: seq<string>, i: nat)
    requires i < 8
  {
    i < |fs| &&
    match i
    case 1 => TypeParse(fs[1]).Ok?
    case 6 => StatusParse(fs[6]).Ok?
    case 7 => true
    case _ => ParseU64(fs[i]).Some?
  }

  /** The error reading field `i` reports when it is absent or malformed. */
  function FieldError(fs: seq<string>, i: nat): ParseError
    requires i < 8 && !FieldValid(fs, i)
  {
    if i >= |fs| then MalformedLine
    else if i == 1 then TransactionTypeError(UnknownTransactionTypeString(fs[1]))
    else if i == 6 then TransactionStatusError(UnknownTransactionStatusString(fs[6]))
    else InvalidNumber
  }

  predicate IsFirstInvalid(fs: seq<string>, i: nat)
    requires i < 8
  {
    !FieldValid(fs, i) && forall j: nat :: j < i ==> FieldValid(fs, j)
  }

  /** A line is read exactly when its eight fields are well formed and
      there is no ninth; otherwise the error is that of the first bad
      field in order, or a malformed line when all eight are sound but
      more follow. */
  lemma ParseFieldsChecksInOrder(fs: seq<string>)
    ensures ParseFields(fs).Ok? <==> (|fs| == 8 && forall i: nat :: i < 8 ==> FieldValid(fs, i))
    ensures ParseFields(fs).Err? ==>
      || (exists i: nat :: i < 8 && IsFirstInvalid(fs, i) && ParseFields(fs).error == FieldError(fs, i))
      || ((forall i: nat :: i < 8 ==> FieldValid(fs, i)) && |fs| > 8 && ParseFields(fs).error == MalformedLine)
  {
    var i := FirstBad(fs, 0);
    if i == 8 {
      AllValid(fs);
    } else {
      FirstInvalidAt(fs, i);
    }
  }

  /** The first field from `from` on that is not valid, or 8 when there
      is none. */
  function FirstBad(fs: seq<string>, from: nat): (i: nat)
    requires from <= 8
    ensures from <= i <= 8
    ensures i < 8 ==> !FieldValid(fs, i)
    ensures forall j: nat :: from <= j < i ==> FieldValid(fs, j)
    decreases 8 - from
  {
    if from == 8 then 8
    else if !FieldValid(fs, from) then from
    else FirstBad(fs, from + 1)
  }

  /** With an invalid field and every earlier one valid, reading stops at
      that field with its error. */
  lemma FirstInvalidAt(fs: seq<string>, i: nat)
    requires i < 8 && !FieldValid(fs, i)
    requires forall j: nat :: j < i ==> FieldValid(fs, j)
    ensures IsFirstInvalid(fs, i)
    ensures ParseFields(fs) == Err(FieldError(fs, i))
  {
    if i > 0 { assert FieldValid(fs, 0); }
    if i > 1 { assert FieldValid(fs, 1); }
    if i > 2 { assert FieldValid(fs, 2); }
    if i > 3 { assert FieldValid(fs, 3); }
    if i > 4 { assert FieldValid(fs, 4); }
    if i > 5 { assert FieldValid(fs, 5); }
    if i > 6 { assert FieldValid(fs, 6); }
  }

  /** With the eight fields valid, reading succeeds exactly when no ninth
      follows. */
  lemma AllValid(fs: seq<string>)
    requires forall j: nat :: j < 8 ==> FieldValid(fs, j)
    ensures ParseFields(fs).Ok? <==> |fs| == 8
    ensures |fs| > 8 ==> ParseFields(fs) == Err(MalformedLine)
  {
    assert FieldValid(fs, 0) && FieldValid(fs, 1) && FieldValid(fs, 2) && FieldValid(fs, 3);
    assert FieldValid(fs, 4) && FieldValid(fs, 5) && FieldValid(fs, 6) && FieldValid(fs, 7);
  }

  /** A description the format carries unchanged: no comma, no line
      break, and no whitespace at either end (the reader trims lines). */
  predicate CsvSafe(r: Record) {
    ',' !in r.description && '\n' !in r.description && IsTrimmed(r.description)
  }

  /** The printed fields spell the record back. */
  lemma FieldsSpell(r: Record)
    ensures Spells(Fields(r), r)
  {
    ParseShow(r.txId);
    ParseShow(r.fromUserId);
    ParseShow(r.toUserId);
    ParseShow(r.amount);
    ParseShow(r.timestamp);
    TypeStrRoundTrip(r.txType);
    StatusStrRoundTrip(r.status);
  }

  /** No printed field but the description can hold `c`, a character that
      is neither a digit nor in an enumeration token. */
  lemma FieldsAvoid(r: Record, c: char)
    requires c == ',' || c == '\n' || IsWhitespace(c)
    requires c !in r.description
    ensures forall i :: 0 <= i < 8 ==> c !in Fields(r)[i]
  {
    ShowHasNoSeparators(r.txId, c);
    ShowHasNoSeparators(r.fromUserId, c);
    ShowHasNoSeparators(r.toUserId, c);
    ShowHasNoSeparators(r.amount, c);
    ShowHasNoSeparators(r.timestamp, c);
    TokensAreWords(r.txType, r.status, c);
  }

  /** A record's line is read back as the record when the description
      has no comma. */
  lemma ParseRow(r: Record)
    requires ',' !in r.description
    ensures ParseLine(Row(r)) == Ok(r)
  {
    FieldsAvoid(r, ',');
    SplitJoin(Fields(r), ',');
    FieldsSpell(r);
    ParseFieldsComplete(Fields(r), r);
  }

  /** A record's line starts with a digit and ends with its description,
      or with the comma before an empty one. */
  lemma RowEnds(r: Record)
    ensures |Row(r)| > |r.description| && IsDigit(Row(r)[0])
    ensures Row(r)[|Row(r)| - 1]
      == if |r.description| == 0 then ',' else r.description[|r.description| - 1]
  {
    var fs := Fields(r);
    var line := Row(r);
    JoinSnoc(fs, ',');
    assert line == Join(fs[..7], ',') + [','] + r.description;
    assert Join(fs[..7], ',') == fs[0] + [','] + Join(fs[1..7], ',') by {
      assert fs[..7][1..] == fs[1..7];
    }
  }

  /** A line of a record whose description has no line feed and does not
      end in a carriage return. */
  predicate SingleLine(r: Record) {
    '\n' !in r.description
    && (|r.description| == 0 || r.description[|r.description| - 1] != '\r')
  }

  /** Such a record's line is one that `lines()` gives back unchanged. */
  lemma RowIsPlain(r: Record)
    requires SingleLine(r)
    ensures IsPlainLine(Row(r))
  {
    RowEnds(r);
    FieldsAvoid(r, '\n');
    JoinAvoids(Fields(r), ',', '\n');
  }

  /** A safe record's line is non-blank and survives trimming. */
  lemma RowIsTrimmed(r: Record)
    requires CsvSafe(r)
    ensures |Row(r)| > 0 && Trim(Row(r)) == Row(r)
  {
    RowEnds(r);
    DigitToDescription(Row(r), r.description);
  }

  /** A line from a digit to the end of a trimmed description, or to the
      comma before an empty one, has no whitespace at either end. */
  lemma DigitToDescription(line: string, d: string)
    requires IsTrimmed(d) && |line| > |d| && IsDigit(line[0])
    requires line[|line| - 1] == if |d| == 0 then ',' else d[|d| - 1]
    ensures |line| > 0 && Trim(line) == line
  {
    assert IsTrimmed(line);
  }

  lemma HeaderIsPlain()
    ensures '\n' !in HEADER && IsPlainLine(HEADER)
  {
    forall i | 0 <= i < 8
      ensures '\n' !in COLUMNS[i] && '\r' !in COLUMNS[i]
    {
      if i == 0 { assert COLUMNS[0] == "TX_ID"; }
      else if i == 1 { assert COLUMNS[1] == "TX_TYPE"; }
      else if i == 2 { assert COLUMNS[2] == "FROM_USER_ID"; }
      else if i == 3 { assert COLUMNS[3] == "TO_USER_ID"; }
      else if i == 4 { assert COLUMNS[4] == "AMOUNT"; }
      else if i == 5 { assert COLUMNS[5] == "TIMESTAMP"; }
      else if i == 6 { assert COLUMNS[6] == "STATUS"; }
      else { assert COLUMNS[7] == "DESCRIPTION"; }
    }
    JoinAvoids(COLUMNS, ',', '\n');
    JoinAvoids(COLUMNS, ',', '\r');
  }

  /** The header line is taken whole by `read_line`, whatever it says. */
  lemma SkipHeaderOf(h: string, body: string)
    requires '\n' !in h
    ensures SkipHeader(h + "\n" + body) == body
  {
    var s := h + "\n" + body;
    assert s == h + ['\n'] + body;
    FindAfterPrefix(h, '\n', body);
    assert s[|h| + 1..] == body;
  }

  /** The header's content is never inspected: any first line will do. */
  lemma HeaderIgnored(h: string, body: string)
    requires '\n' !in h
    ensures Decode(h + "\n" + body) == DecodeLines(Lines(body))
  {
    SkipHeaderOf(h, body);
  }

  /** Input without a line feed is all header, and holds no records. */
  lemma HeaderOnly(s: string)
    requires '\n' !in s
    ensures Decode(s) == Ok([])
  {
    assert Find(s, '\n') == |s|;
  }

  /** Two line sequences with the same first line, whose remainders read
      alike, read alike. */
  lemma SameFirstLine(ls: seq<string>, ms: seq<string>)
    requires |ls| > 0 && |ms| > 0 && ls[0] == ms[0]
    requires DecodeLines(ls[1..]) == DecodeLines(ms[1..])
    ensures DecodeLines(ls) == DecodeLines(ms)
  {
    DecodeLinesCons(ls);
    DecodeLinesCons(ms);
  }

  /** What one line after the header adds to what the lines after it
      give: nothing when it is blank, else its record in front, or the
      first error. */
  function ReadLine(line: string, rest: Result<seq<Record>, ParseError>): Result<seq<Record>, ParseError> {
    if |line| == 0 then rest
    else
      var record :- ParseLine(line);
      var more :- rest;
      Ok([record] + more)
  }

  lemma DecodeLinesCons(ls: seq<string>)
    requires |ls| > 0
    ensures DecodeLines(ls) == ReadLine(Trim(ls[0]), DecodeLines(ls[1..]))
  {
  }

  /** A blank first line is skipped. */
  lemma BlankFirstLine(ls: seq<string>)
    requires |ls| > 0 && |Trim(ls[0])| == 0
    ensures DecodeLines(ls) == DecodeLines(ls[1..])
  {
  }

  /** A blank line anywhere after the header is skipped. */
  lemma {:induction false} BlankLineSkipped(ls: seq<string>, i: nat)
    requires i < |ls| && |Trim(ls[i])| == 0
    ensures DecodeLines(ls) == DecodeLines(ls[..i] + ls[i + 1..])
  {
    BlankLineDropped(ls, i, ls[..i] + ls[i + 1..]);
  }

  lemma {:induction false} BlankLineDropped(ls: seq<string>, i: nat, ms: seq<string>)
    requires i < |ls| && |Trim(ls[i])| == 0
    requires ms == ls[..i] + ls[i + 1..]
    ensures DecodeLines(ls) == DecodeLines(ms)
  {
    if i == 0 {
      assert ms == ls[1..];
      BlankFirstLine(ls);
    } else {
      var tail := ls[1..];
      assert tail[i - 1] == ls[i];
      RemoveAt(ls, i);
      BlankLineDropped(tail, i - 1, ms[1..]);
      SameFirstLine(ls, ms);
    }
  }

  /** A non-blank line that parses is put in front of what the lines
      after it give. */
  lemma ParsedFirstLine(ls: seq<string>, r: Record, rest: seq<Record>)
    requires |ls| > 0 && |Trim(ls[0])| > 0 && ParseLine(Trim(ls[0])) == Ok(r)
    requires DecodeLines(ls[1..]) == Ok(rest)
    ensures DecodeLines(ls) == Ok([r] + rest)
  {
  }

  lemma RowsTail(rs: seq<Record>)
    requires |rs| > 0
    ensures Rows(rs)[1..] == Rows(rs[1..])
  {
  }

  /** The written lines are read back as the records when every
      description is safe. */
  lemma {:induction false} DecodeRows(rs: seq<Record>)
    requires forall i :: 0 <= i < |rs| ==> CsvSafe(rs[i])
    ensures DecodeLines(Rows(rs)) == Ok(rs)
  {
    if |rs| > 0 {
      RowIsTrimmed(rs[0]);
      ParseRow(rs[0]);
      RowsTail(rs);
      DecodeRows(rs[1..]);
      ParsedFirstLine(Rows(rs), rs[0], rs[1..]);
      FrontAndRest(rs);
    }
  }

  /** What `write_to` writes, `lines()` splits into the header and one line
      per record: one line more than there are records. */
  lemma EncodeLines(rs: seq<Record>)
    requires forall i :: 0 <= i < |rs| ==> SingleLine(rs[i])
    ensures Lines(Encode(rs)) == [HEADER] + Rows(rs)
    ensures |Lines(Encode(rs))| == |rs| + 1
  {
    RowsArePlain(rs);
    HeaderIsPlain();
    WithHeader(HEADER, Rows(rs));
  }

  /** A plain header line in front of plain lines, each ended by a line
      feed, is read back by `lines()` as those lines. */
  lemma WithHeader(h: string, ls: seq<string>)
    requires IsPlainLine(h)
    requires forall i :: 0 <= i < |ls| ==> IsPlainLine(ls[i])
    ensures Lines(h + "\n" + Unlines(ls)) == [h] + ls
    ensures |Lines(h + "\n" + Unlines(ls))| == |ls| + 1
  {
    var all := [h] + ls;
    assert all[0] == h && all[1..] == ls;
    assert forall i :: 0 <= i < |all| ==> IsPlainLine(all[i]);
    LinesOfPlain(all);
  }

  /** Round trip: reading what `write_to` wrote gives back the records, in
      order, when every description is safe. */
  lemma DecodeEncode(rs: seq<Record>)
    requires forall i :: 0 <= i < |rs| ==> CsvSafe(rs[i])
    ensures Decode(Encode(rs)) == Ok(rs)
  {
    RowsReadBack(rs);
    HeaderIsPlain();
    DecodeAfterHeader(HEADER, Unlines(Rows(rs)), Rows(rs), rs);
  }

  /** The lines of safe records, each ended by a line feed, are split and
      read back as the records. */
  lemma RowsReadBack(rs: seq<Record>)
    requires forall i :: 0 <= i < |rs| ==> CsvSafe(rs[i])
    ensures Lines(Unlines(Rows(rs))) == Rows(rs)
    ensures DecodeLines(Rows(rs)) == Ok(rs)
  {
    RowsArePlain(rs);
    LinesOfPlain(Rows(rs));
    DecodeRows(rs);
  }

  /** After any first line, text whose lines read as `rs` decodes to `rs`. */
  lemma DecodeAfterHeader(h: string, body: string, ls: seq<string>, rs: seq<Record>)
    requires '\n' !in h && Lines(body) == ls && DecodeLines(ls) == Ok(rs)
    ensures Decode(h + "\n" + body) == Ok(rs)
  {
    SkipHeaderOf(h, body);
  }

  lemma RowsArePlain(rs: seq<Record>)
    requires forall i :: 0 <= i < |rs| ==> SingleLine(rs[i])
    ensures forall i :: 0 <= i < |rs| ==> IsPlainLine(Rows(rs)[i])
  {
    forall i | 0 <= i < |rs|
      ensures IsPlainLine(Rows(rs)[i])
    {
      RowIsPlain(rs[i]);
    }
  }

  /** Plain lines each ended by a line feed are read back by `lines()`. */
  lemma LinesOfPlain(ls: seq<string>)
    requires forall i :: 0 <= i < |ls| ==> IsPlainLine(ls[i])
    ensures Lines(Unlines(ls)) == ls
  {
    assert Unlines(ls) + "" == Unlines(ls);
    LinesOfUnlines(ls, "");
    assert ls + [] == ls;
  }
}
