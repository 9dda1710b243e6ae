/** The key-value text codec: one `KEY: value` line per field, records
    separated by blank lines, `#` lines ignored. The reader fills a draft one
    key at a time and turns it into a record at each blank line and at the
    end of the input. */
module TextFormat {
  import opened Bytes
  import opened Seqs
  import opened Results
  import opened Errors
  import opened Model
  import opened Strings
  import opened Decimal
  import opened Layout

  // Keys

  /** The eight keys a record is written with. */
  datatype Key = TxIdKey | TxTypeKey | ToUserIdKey | FromUserIdKey | TimestampKey
               | DescriptionKey | AmountKey | StatusKey

  function KeyName(k: Key): string {
    match k
    case TxIdKey => "TX_ID"
    case TxTypeKey => "TX_TYPE"
    case ToUserIdKey => "TO_USER_ID"
    case FromUserIdKey => "FROM_USER_ID"
    case TimestampKey => "TIMESTAMP"
    case DescriptionKey => "DESCRIPTION"
    case AmountKey => "AMOUNT"
    case StatusKey => "STATUS"
  }

  /** The key a name denotes, if any: names are compared exactly, with no
      case folding. */
  function ParseKey(name: string): (r: Option<Key>)
    ensures r.Some? ==> KeyName(r.value) == name
    ensures r.None? ==> forall k: Key :: KeyName(k) != name
  {
    if name == "TX_ID" then Some(TxIdKey)
    else if name == "TX_TYPE" then Some(TxTypeKey)
    else if name == "TO_USER_ID" then Some(ToUserIdKey)
    else if name == "FROM_USER_ID" then Some(FromUserIdKey)
    else if name == "TIMESTAMP" then Some(TimestampKey)
    else if name == "DESCRIPTION" then Some(DescriptionKey)
    else if name == "AMOUNT" then Some(AmountKey)
    else if name == "STATUS" then Some(StatusKey)
    else None
  }

  lemma ParseKeyName(k: Key)
    ensures ParseKey(KeyName(k)) == Some(k)
  {
  }

  /** The keys in the order the writer emits them. */
  const WriteOrder: seq<Key> :=
    [TxIdKey, TxTypeKey, ToUserIdKey, FromUserIdKey, TimestampKey, DescriptionKey, AmountKey, StatusKey]

  // Setting one field

  predicate IsNumeric(k: Key) {
    k in {TxIdKey, ToUserIdKey, FromUserIdKey, TimestampKey, AmountKey}
  }

  /** Whether `value` is a text the field `k` accepts. */
  predicate Readable(k: Key, value: string) {
    match k
    case TxTypeKey => value in {"DEPOSIT", "TRANSFER", "WITHDRAWAL"}
    case StatusKey => value in {"SUCCESS", "FAILURE", "PENDING"}
    case DescriptionKey => true
    case _ => ParseU64(value).Some?
  }

  /** The field `k` of `d` holds the value `value` spells. */
  predicate Holds(d: TextRecordDraft, k: Key, value: string) {
    match k
    case TxIdKey => d.txId.Some? && ParseU64(value) == d.txId
    case TxTypeKey => d.txType.Some? && TypeToStr(d.txType.value) == value
    case ToUserIdKey => d.toUserId.Some? && ParseU64(value) == d.toUserId
    case FromUserIdKey => d.fromUserId.Some? && ParseU64(value) == d.fromUserId
    case TimestampKey => d.timestamp.Some? && ParseU64(value) == d.timestamp
    case DescriptionKey => d.description == Some(value)
    case AmountKey => d.amount.Some? && ParseU64(value) == d.amount
    case StatusKey => d.status.Some? && StatusToStr(d.status.value) == value
  }

  /** The field `k` is the same in `d` and `e`. */
  predicate SameAt(d: TextRecordDraft, e: TextRecordDraft, k: Key) {
    match k
    case TxIdKey => d.txId == e.txId
    case TxTypeKey => d.txType == e.txType
    case ToUserIdKey => d.toUserId == e.toUserId
    case FromUserIdKey => d.fromUserId == e.fromUserId
    case TimestampKey => d.timestamp == e.timestamp
    case DescriptionKey => d.description == e.description
    case AmountKey => d.amount == e.amount
    case StatusKey => d.status == e.status
  }

  /** Every field other than `k` is the same in `d` and `e`. */
  predicate SameExcept(d: TextRecordDraft, e: TextRecordDraft, k: Key) {
    forall other: Key :: other != k ==> SameAt(d, e, other)
  }

  /** `parse_str`: a `u64` in decimal, or an invalid-number error. */
  function ParseStr(value: string): (r: Result<u64, ParseError>)
    ensures r.Ok? <==> ParseU64(value).Some?
    ensures r.Ok? ==> ParseU64(value) == Some(r.value)
    ensures r.Err? ==> r.error == InvalidNumber
  {
    match ParseU64(value)
    case None => Err(InvalidNumber)
    case Some(n) => Ok(n)
  }

  /** One field of the draft set from its text: a value the field does not
      accept is reported by that field's parser; otherwise exactly that
      field is set. `TX_ID` is parsed like the other numbers here (see
      `MatchKeyAsWritten` for the reader as it stands). */
  function SetField(d: TextRecordDraft, k: Key, value: string): (r: Result<TextRecordDraft, ParseError>)
    ensures r.Ok? <==> Readable(k, value)
    ensures r.Err? && IsNumeric(k) ==> r.error == InvalidNumber
    ensures r.Err? && k == TxTypeKey ==> r.error == TransactionTypeError(UnknownTransactionTypeString(value))
    ensures r.Err? && k == StatusKey ==> r.error == TransactionStatusError(UnknownTransactionStatusString(value))
    ensures r.Ok? ==> Holds(r.value, k, value) && SameExcept(d, r.value, k)
  {
    match k
    case TxIdKey =>
      var n :- ParseStr(value); Ok(d.(txId := Some(n)))
    case TxTypeKey =>
      var t :- ParseTypeName(value); Ok(d.(txType := Some(t)))
    case ToUserIdKey =>
      var n :- ParseStr(value); Ok(d.(toUserId := Some(n)))
    case FromUserIdKey =>
      var n :- ParseStr(value); Ok(d.(fromUserId := Some(n)))
    case TimestampKey =>
      var n :- ParseStr(value); Ok(d.(timestamp := Some(n)))
    case DescriptionKey =>
      Ok(d.(description := Some(value)))
    case AmountKey =>
      var n :- ParseStr(value); Ok(d.(amount := Some(n)))
    case StatusKey =>
      var s :- ParseStatusName(value); Ok(d.(status := Some(s)))
  }

  /** The line sets a field: a known key with a value that field accepts. */
  predicate Accepted(name: string, value: string) {
    ParseKey(name).Some? && Readable(ParseKey(name).value, value)
  }

  /** The `match key` of `read_from`: an unknown key is a malformed line,
      a known one sets its field. */
  function MatchKey(d: TextRecordDraft, name: string, value: string): (r: Result<TextRecordDraft, ParseError>)
    ensures r.Ok? <==> Accepted(name, value)
    ensures ParseKey(name).None? ==> r == Err(MalformedLine)
  {
    match ParseKey(name)
    case None => Err(MalformedLine)
    case Some(k) => SetField(d, k, value)
  }

  // Reading

  /** The reader's state between lines: the draft being filled and the
      records finished so far. */
  datatype State = State(draft: TextRecordDraft, records: seq<Record>)

  const Start := State(EmptyDraft, [])

  function Apply(st: State, name: string, value: string): (r: Result<State, ParseError>)
    ensures r.Ok? ==> r.value.records == st.records
  {
    var d :- MatchKey(st.draft, name, value);
    Ok(State(d, st.records))
  }

  /** A blank line: a non-empty draft becomes a record and is cleared, and
      an empty one is left alone. */
  function Flush(st: State): (r: Result<State, ParseError>)
    ensures r.Ok? ==> IsEmpty(r.value.draft)
    ensures r.Ok? ==> st.records <= r.value.records && |r.value.records| <= |st.records| + 1
  {
    if IsEmpty(st.draft) then Ok(st)
    else
      var record :- FromDraft(st.draft);
      Ok(State(Reset(st.draft), st.records + [record]))
  }

  /** How the reader sees one line once it is trimmed. */
  datatype Line = Blank | Comment | NoColon | KeyValue(name: string, value: string)

  /** A trimmed line that is empty is blank; one starting with `#` is a
      comment; otherwise the trimmed text on either side of its first `:`
      is the key and the value. */
  function Classify(raw: string): (l: Line)
    ensures l.Blank? <==> |Trim(raw)| == 0
    ensures l.Comment? <==> |Trim(raw)| > 0 && Trim(raw)[0] == '#'
    ensures l.NoColon? <==> |Trim(raw)| > 0 && Trim(raw)[0] != '#' && ':' !in Trim(raw)
    ensures l.KeyValue? ==> ':' !in l.name && IsTrimmed(l.name) && IsTrimmed(l.value)
  {
    var line := Trim(raw);
    if |line| == 0 then Blank
    else if line[0] == '#' then Comment
    else
      var (name, value) := SplitOnce(line, ':');
      if value.None? then NoColon else KeyValue(Trim(name), Trim(value.value))
  }

  /** One line of input: a blank line finishes the draft, a comment is
      skipped, a line without `:` is malformed and a key line sets its
      field. Records already finished are never changed, and at most one is
      added. */
  function Step(st: State, raw: string): (r: Result<State, ParseError>)
    ensures r.Ok? ==> st.records <= r.value.records && |r.value.records| <= |st.records| + 1
  {
    match Classify(raw)
    case Blank => Flush(st)
    case Comment => Ok(st)
    case NoColon => Err(MalformedLine)
    case KeyValue(name, value) => Apply(st, name, value)
  }

  /** The lines read in order, stopping at the first error. */
  function Run(st: State, ls: seq<string>): (r: Result<State, ParseError>)
    ensures r.Ok? ==> st.records <= r.value.records && |r.value.records| <= |st.records| + |ls|
    decreases |ls|
  {
    if |ls| == 0 then Ok(st)
    else
      var next :- Step(st, ls[0]);
      Run(next, ls[1..])
  }

  function RunFrom(r: Result<State, ParseError>, ls: seq<string>): Result<State, ParseError> {
    var st :- r;
    Run(st, ls)
  }

  /** End of input: a non-empty draft becomes the last record. */
  function Finish(st: State): (r: Result<seq<Record>, ParseError>)
    ensures r.Ok? && IsEmpty(st.draft) ==> r.value == st.records
    ensures r.Ok? ==> st.records <= r.value && |r.value| <= |st.records| + 1
  {
    var last :- Flush(st);
    Ok(last.records)
  }

  function DecodeLines(ls: seq<string>): Result<seq<Record>, ParseError> {
    var st :- Run(Start, ls);
    Finish(st)
  }

  /** `read_from` on text that is valid UTF-8. */
  function Decode(s: string): Result<seq<Record>, ParseError> {
    DecodeLines(Lines(s))
  }

  // Writing

  function KeyLine(name: string, value: string): string {
    name + ": " + value
  }

  /** The text the writer prints for field `k` of `r`. */
  function Printed(r: Record, k: Key): string {
    match k
    case TxIdKey => Show(r.txId)
    case TxTypeKey => TypeToStr(r.txType)
    case ToUserIdKey => Show(r.toUserId)
    case FromUserIdKey => Show(r.fromUserId)
    case TimestampKey => Show(r.timestamp)
    case DescriptionKey => r.description
    case AmountKey => Show(r.amount)
    case StatusKey => StatusToStr(r.status)
  }

  /** One `KEY: value` line per key, in order. */
  function KeyLines(keys: seq<Key>, r: Record): (ls: seq<string>)
    ensures |ls| == |keys|
    ensures forall i :: 0 <= i < |ls| ==> ls[i] == KeyLine(KeyName(keys[i]), Printed(r, keys[i]))
  {
    if |keys| == 0 then []
    else [KeyLine(KeyName(keys[0]), Printed(r, keys[0]))] + KeyLines(keys[1..], r)
  }

  /** The eight lines the writer emits for one record. */
  function BlockLines(r: Record): seq<string> {
    KeyLines(WriteOrder, r)
  }

  /** The lines of each record, one block per record. */
  function BlockList(rs: seq<Record>): (bs: seq<seq<string>>)
    ensures |bs| == |rs|
    ensures forall i :: 0 <= i < |rs| ==> bs[i] == BlockLines(rs[i])
  {
    if |rs| == 0 then [] else [BlockLines(rs[0])] + BlockList(rs[1..])
  }

  /** `write_to`: every record formatted and followed by a blank line, and
      the whole text trimmed. */
  function Encode(rs: seq<Record>): string {
    Trim(Stanzas(BlockList(rs)))
  }

  /** The lines of the writer's output: each record's eight lines, with one
      blank line between consecutive records. */
  function Written(rs: seq<Record>): seq<string> {
    Paragraphs(BlockList(rs))
  }

  /** A record the text format carries unchanged: its description is one
      line with no whitespace at either end. */
  predicate TextSafe(r: Record) {
    '\n' !in r.description && IsTrimmed(r.description)
  }

  // Single lines

  /** A name the writer uses: not empty, no `#` in front, no `:` or line
      feed, no whitespace at either end. */
  predicate WriterName(name: string) {
    |name| > 0 && name[0] != '#' && ':' !in name && '\n' !in name && IsTrimmed(name)
  }

  lemma KeyNamesAreWriterNames(k: Key)
    ensures WriterName(KeyName(k))
  {
    UpperNameIsWriterName(KeyName(k));
  }

  lemma UpperNameIsWriterName(n: string)
    requires |n| > 0 && forall j :: 0 <= j < |n| ==> 'A' <= n[j] <= 'Z' || n[j] == '_'
    ensures WriterName(n)
  {
    assert !IsWhitespace(n[0]) && !IsWhitespace(n[|n| - 1]);
  }

  /** The reader sees a line the writer emits as that key and value. */
  lemma ClassifyKeyLine(name: string, value: string)
    requires WriterName(name) && IsTrimmed(value)
    ensures Classify(KeyLine(name, value)) == KeyValue(name, value)
  {
    if |value| == 0 {
      KeyLineNoValue(name);
      SplitOnceAfter(name, ':', "");
    } else {
      KeyLineWithValue(name, value);
      SplitOnceAfter(name, ':', " " + value);
      TrimPadded(" ", value);
    }
  }

  /** With an empty value, trimming drops the space after the `:`. */
  lemma KeyLineNoValue(name: string)
    requires |name| > 0 && IsTrimmed(name)
    ensures Trim(KeyLine(name, "")) == name + [':'] + ""
  {
    var head := name + ":";
    assert IsTrimmed(head) by {
      assert head[0] == name[0] && head[|head| - 1] == ':';
    }
    assert KeyLine(name, "") == head + " ";
    TrimPaddedEnd(head, " ");
  }

  /** With a non-empty trimmed value, the line is already trimmed. */
  lemma KeyLineWithValue(name: string, value: string)
    requires |name| > 0 && IsTrimmed(name) && |value| > 0 && IsTrimmed(value)
    ensures Trim(KeyLine(name, value)) == name + [':'] + (" " + value)
  {
    var raw := KeyLine(name, value);
    assert raw == name + [':'] + (" " + value);
    assert raw[0] == name[0] && raw[|raw| - 1] == value[|value| - 1];
  }

  /** A line that is blank once trimmed, read while the draft is empty,
      changes nothing. */
  lemma BlankLineIdle(st: State, raw: string)
    requires |Trim(raw)| == 0 && IsEmpty(st.draft)
    ensures Step(st, raw) == Ok(st)
  {
  }

  /** Reading a blank line leaves the draft empty, whatever it held. */
  lemma BlankLineClears(st: State, raw: string)
    requires |Trim(raw)| == 0 && Step(st, raw).Ok?
    ensures IsEmpty(Step(st, raw).value.draft)
  {
  }

  /** A blank line after a non-empty draft finishes it: the record it
      describes is appended and the draft is cleared, or the reader stops
      with the first field the draft lacks. */
  lemma BlankLineFinishes(st: State, raw: string)
    requires |Trim(raw)| == 0 && !IsEmpty(st.draft)
    ensures IsComplete(st.draft) ==>
      exists r :: DraftOf(r) == st.draft && Step(st, raw) == Ok(State(EmptyDraft, st.records + [r]))
    ensures !IsComplete(st.draft) ==>
      exists i: nat :: i < 8 && IsFirstMissing(st.draft, i) && Step(st, raw) == Err(MissingField(CheckOrder[i]))
  {
    FromDraftChecksInOrder(st.draft);
  }

  /** A comment line changes nothing. */
  lemma CommentLineIgnored(st: State, raw: string)
    requires |Trim(raw)| > 0 && Trim(raw)[0] == '#'
    ensures Step(st, raw) == Ok(st)
  {
  }

  /** A non-blank, non-comment line without a `:` is malformed. */
  lemma LineWithoutColonRejected(st: State, raw: string)
    requires |Trim(raw)| > 0 && Trim(raw)[0] != '#' && ':' !in Trim(raw)
    ensures Step(st, raw) == Err(MalformedLine)
  {
  }

  /** A key line whose key is none of the eight is malformed. */
  lemma UnknownKeyRejected(st: State, raw: string, name: string, value: string)
    requires Classify(raw) == KeyValue(name, value)
    requires forall k: Key :: KeyName(k) != name
    ensures Step(st, raw) == Err(MalformedLine)
  {
    StepKeyValue(st, raw, name, value);
  }

  /** A key line whose value its field does not accept stops the reader
      with that field's error. */
  lemma BadValueRejected(st: State, raw: string, k: Key, value: string)
    requires Classify(raw) == KeyValue(KeyName(k), value) && !Readable(k, value)
    ensures Step(st, raw).Err?
    ensures IsNumeric(k) ==> Step(st, raw) == Err(InvalidNumber)
    ensures k == TxTypeKey ==> Step(st, raw) == Err(TransactionTypeError(UnknownTransactionTypeString(value)))
    ensures k == StatusKey ==> Step(st, raw) == Err(TransactionStatusError(UnknownTransactionStatusString(value)))
  {
    ParseKeyName(k);
  }

  // Key order

  /** A value's text determines the field it sets. */
  lemma HoldsDetermines(a: TextRecordDraft, b: TextRecordDraft, k: Key, value: string)
    requires Holds(a, k, value) && Holds(b, k, value)
    ensures SameAt(a, b, k)
  {
    match k
    case TxTypeKey =>
      TypeStrRoundTrip(a.txType.value);
      TypeStrRoundTrip(b.txType.value);
    case StatusKey =>
      StatusStrRoundTrip(a.status.value);
      StatusStrRoundTrip(b.status.value);
    case _ =>
  }

  /** Drafts that agree on every field are equal. */
  lemma SameEverywhere(a: TextRecordDraft, b: TextRecordDraft)
    requires forall k: Key :: SameAt(a, b, k)
    ensures a == b
  {
    assert SameAt(a, b, TxIdKey) && SameAt(a, b, TxTypeKey) && SameAt(a, b, ToUserIdKey);
    assert SameAt(a, b, FromUserIdKey) && SameAt(a, b, TimestampKey) && SameAt(a, b, DescriptionKey);
    assert SameAt(a, b, AmountKey) && SameAt(a, b, StatusKey);
  }

  /** Setting two different fields in either order gives the same draft. */
  lemma SetFieldsCommute(d: TextRecordDraft, k1: Key, v1: string, k2: Key, v2: string)
    requires Readable(k1, v1) && Readable(k2, v2) && k1 != k2
    ensures SetField(SetField(d, k1, v1).value, k2, v2) == SetField(SetField(d, k2, v2).value, k1, v1)
  {
    var a1 := SetField(d, k1, v1).value;
    var b1 := SetField(d, k2, v2).value;
    var a := SetField(a1, k2, v2).value;
    var b := SetField(b1, k1, v1).value;
    assert Holds(a1, k1, v1) && SameAt(a1, a, k1);
    assert Holds(b, k1, v1);
    HoldsDetermines(a1, b, k1, v1);
    assert Holds(b1, k2, v2) && SameAt(b1, b, k2);
    assert Holds(a, k2, v2);
    HoldsDetermines(a, b1, k2, v2);
    forall k: Key
      ensures SameAt(a, b, k)
    {
      if k != k1 && k != k2 {
        assert SameAt(d, a1, k) && SameAt(a1, a, k) && SameAt(d, b1, k) && SameAt(b1, b, k);
      }
    }
    SameEverywhere(a, b);
  }

  /** Setting a field again replaces the earlier value. */
  lemma SetFieldOverwrites(d: TextRecordDraft, k: Key, v1: string, v2: string)
    requires Readable(k, v1)
    ensures SetField(SetField(d, k, v1).value, k, v2) == SetField(d, k, v2)
  {
    var e := SetField(d, k, v1).value;
    if Readable(k, v2) {
      var a := SetField(e, k, v2).value;
      var b := SetField(d, k, v2).value;
      HoldsDetermines(a, b, k, v2);
      forall other: Key
        ensures SameAt(a, b, other)
      {
        if other != k {
          assert SameAt(d, e, other) && SameAt(e, a, other) && SameAt(d, b, other);
        }
      }
      SameEverywhere(a, b);
    }
  }

  // Reading many lines

  /** Reading `a + b` is reading `a`, then `b` from where `a` left off. */
  lemma {:induction false} RunAppend(st: State, a: seq<string>, b: seq<string>)
    ensures Run(st, a + b) == RunFrom(Run(st, a), b)
    decreases |a|
  {
    if |a| == 0 {
      EmptyAppend(a, b);
    } else {
      assert (a + b)[0] == a[0];
      assert (a + b)[1..] == a[1..] + b;
      match Step(st, a[0])
      case Err(_) =>
      case Ok(next) => RunAppend(next, a[1..], b);
    }
  }

  lemma RunOne(st: State, x: string)
    ensures Run(st, [x]) == Step(st, x)
  {
  }

  lemma RunTwo(st: State, x: string, y: string)
    ensures Run(st, [x, y]) == RunFrom(Step(st, x), [y])
  {
    assert [x, y][1..] == [y];
  }

  /** Reading `pre + l + post` is reading `pre`, then `l`, then `post`. */
  lemma RunAround(st: State, pre: seq<string>, l: seq<string>, post: seq<string>)
    ensures Run(st, pre + l + post) == RunFrom(RunFrom(Run(st, pre), l), post)
  {
    RunAppend(st, pre + l, post);
    RunAppend(st, pre, l);
  }

  /** A line that leaves the state where it occurs as it is may be dropped. */
  lemma NoOpLineDropped(st: State, pre: seq<string>, x: string, post: seq<string>)
    requires Run(st, pre).Ok? ==> Step(Run(st, pre).value, x) == Ok(Run(st, pre).value)
    ensures Run(st, pre + [x] + post) == Run(st, pre + post)
  {
    RunAround(st, pre, [x], post);
    RunAppend(st, pre, post);
    if Run(st, pre).Ok? {
      RunOne(Run(st, pre).value, x);
    }
  }

  /** A comment line anywhere in the input is ignored. */
  lemma CommentIgnoredAnywhere(st: State, pre: seq<string>, c: string, post: seq<string>)
    requires |Trim(c)| > 0 && Trim(c)[0] == '#'
    ensures Run(st, pre + [c] + post) == Run(st, pre + post)
  {
    if Run(st, pre).Ok? {
      CommentLineIgnored(Run(st, pre).value, c);
    }
    NoOpLineDropped(st, pre, c, post);
  }

  /** After a blank line, another changes nothing. */
  lemma BlankAfterBlank(st: State, b: string)
    requires |Trim(b)| == 0 && Step(st, b).Ok?
    ensures Step(Step(st, b).value, b) == Ok(Step(st, b).value)
  {
    BlankLineClears(st, b);
    BlankLineIdle(Step(st, b).value, b);
  }

  /** A blank line read twice in a row has the effect of reading it once. */
  lemma RepeatedBlankLine(st: State, pre: seq<string>, b: string, post: seq<string>)
    requires |Trim(b)| == 0
    ensures Run(st, pre + [b, b] + post) == Run(st, pre + [b] + post)
  {
    Associative(pre + [b], [b], post);
    assert pre + [b, b] + post == (pre + [b]) + [b] + post;
    if Run(st, pre + [b]).Ok? {
      RunAppend(st, pre, [b]);
      RunOne(Run(st, pre).value, b);
      BlankAfterBlank(Run(st, pre).value, b);
    }
    NoOpLineDropped(st, pre + [b], b, post);
  }

  /** Two key lines for different keys may be swapped: the reader ends in
      the same state. */
  lemma KeyLinesCommute(st: State, pre: seq<string>, l1: string, l2: string, post: seq<string>,
                        n1: string, v1: string, n2: string, v2: string)
    requires Classify(l1) == KeyValue(n1, v1) && Classify(l2) == KeyValue(n2, v2) && n1 != n2
    requires Accepted(n1, v1) && Accepted(n2, v2)
    ensures Run(st, pre + [l1, l2] + post) == Run(st, pre + [l2, l1] + post)
  {
    RunAround(st, pre, [l1, l2], post);
    RunAround(st, pre, [l2, l1], post);
    if Run(st, pre).Ok? {
      KeyPairCommutes(Run(st, pre).value, l1, l2, n1, v1, n2, v2);
    }
  }

  lemma KeyPairCommutes(s: State, l1: string, l2: string, n1: string, v1: string, n2: string, v2: string)
    requires Classify(l1) == KeyValue(n1, v1) && Classify(l2) == KeyValue(n2, v2) && n1 != n2
    requires Accepted(n1, v1) && Accepted(n2, v2)
    ensures Run(s, [l1, l2]) == Run(s, [l2, l1])
  {
    var k1, k2 := ParseKey(n1).value, ParseKey(n2).value;
    var a := State(SetField(s.draft, k1, v1).value, s.records);
    var b := State(SetField(s.draft, k2, v2).value, s.records);
    StepSets(s, l1, n1, v1);
    StepSets(s, l2, n2, v2);
    StepSets(a, l2, n2, v2);
    StepSets(b, l1, n1, v1);
    RunTwo(s, l1, l2);
    RunTwo(s, l2, l1);
    RunOne(a, l2);
    RunOne(b, l1);
    SetFieldsCommute(s.draft, k1, v1, k2, v2);
  }

  /** When a key appears twice the second value wins. */
  lemma RepeatedKeyOverwrites(st: State, pre: seq<string>, l1: string, l2: string, post: seq<string>,
                              n: string, v1: string, v2: string)
    requires Classify(l1) == KeyValue(n, v1) && Classify(l2) == KeyValue(n, v2) && Accepted(n, v1)
    ensures Run(st, pre + [l1, l2] + post) == Run(st, pre + [l2] + post)
  {
    RunAround(st, pre, [l1, l2], post);
    RunAround(st, pre, [l2], post);
    if Run(st, pre).Ok? {
      KeyPairOverwrites(Run(st, pre).value, l1, l2, n, v1, v2);
    }
  }

  lemma KeyPairOverwrites(s: State, l1: string, l2: string, n: string, v1: string, v2: string)
    requires Classify(l1) == KeyValue(n, v1) && Classify(l2) == KeyValue(n, v2) && Accepted(n, v1)
    ensures Run(s, [l1, l2]) == Run(s, [l2])
  {
    var k := ParseKey(n).value;
    var mid := State(SetField(s.draft, k, v1).value, s.records);
    StepSets(s, l1, n, v1);
    StepSets(mid, l2, n, v2);
    StepSets(s, l2, n, v2);
    RunTwo(s, l1, l2);
    RunOne(mid, l2);
    RunOne(s, l2);
    SetFieldOverwrites(s.draft, k, v1, v2);
  }

  /** A line naming a known key sets that key's field. */
  lemma StepSets(st: State, raw: string, name: string, value: string)
    requires Classify(raw) == KeyValue(name, value) && ParseKey(name).Some?
    ensures Step(st, raw) == (var d :- SetField(st.draft, ParseKey(name).value, value); Ok(State(d, st.records)))
  {
    StepKeyValue(st, raw, name, value);
  }

  /** Input that ends in the middle of a record lacking fields is refused
      with the first missing field, in `from_draft`'s order. */
  lemma IncompleteLastRecord(st: State)
    requires !IsEmpty(st.draft) && !IsComplete(st.draft)
    ensures exists i: nat :: i < 8 && IsFirstMissing(st.draft, i) && Finish(st) == Err(MissingField(CheckOrder[i]))
  {
    FromDraftChecksInOrder(st.draft);
  }

  /** The end of input acts as one more blank line. */
  lemma DecodeAsFlush(ls: seq<string>)
    ensures DecodeLines(ls) == (var st :- Run(Start, ls + [""]); Ok(st.records))
  {
    RunAppend(Start, ls, [""]);
  }

  // Writing then reading

  /** The draft after reading the key lines of `r` for `keys`. */
  function Fill(d: TextRecordDraft, keys: seq<Key>, r: Record): Result<TextRecordDraft, ParseError>
    decreases |keys|
  {
    if |keys| == 0 then Ok(d)
    else
      var e :- SetField(d, keys[0], Printed(r, keys[0]));
      Fill(e, keys[1..], r)
  }

  /** Key lines the writer emits are read one field at a time. */
  lemma {:induction false} ReadKeyLines(st: State, keys: seq<Key>, r: Record)
    requires forall i :: 0 <= i < |keys| ==> IsTrimmed(Printed(r, keys[i]))
    ensures Run(st, KeyLines(keys, r)) == (var d :- Fill(st.draft, keys, r); Ok(State(d, st.records)))
    decreases |keys|
  {
    if |keys| > 0 {
      var ls := KeyLines(keys, r);
      KeyLinesTail(keys, r);
      RunCons(st, ls);
      StepKeyLine(st, keys[0], Printed(r, keys[0]));
      match SetField(st.draft, keys[0], Printed(r, keys[0]))
      case Err(_) =>
      case Ok(e) => ReadKeyLines(State(e, st.records), keys[1..], r);
    }
  }

  lemma KeyLinesTail(keys: seq<Key>, r: Record)
    requires |keys| > 0
    ensures KeyLines(keys, r)[1..] == KeyLines(keys[1..], r)
  {
  }

  lemma RunCons(st: State, ls: seq<string>)
    requires |ls| > 0
    ensures Run(st, ls) == RunFrom(Step(st, ls[0]), ls[1..])
  {
  }

  /** A line the writer emits for key `k` sets that field. */
  lemma StepKeyLine(st: State, k: Key, value: string)
    requires IsTrimmed(value)
    ensures Step(st, KeyLine(KeyName(k), value)) == (var d :- SetField(st.draft, k, value); Ok(State(d, st.records)))
  {
    var line := KeyLine(KeyName(k), value);
    KeyNamesAreWriterNames(k);
    ClassifyKeyLine(KeyName(k), value);
    StepKeyValue(st, line, KeyName(k), value);
    ApplyKey(st, k, value);
  }

  lemma StepKeyValue(st: State, raw: string, name: string, value: string)
    requires Classify(raw) == KeyValue(name, value)
    ensures Step(st, raw) == Apply(st, name, value)
  {
  }

  lemma ApplyKey(st: State, k: Key, value: string)
    ensures Apply(st, KeyName(k), value) == (var d :- SetField(st.draft, k, value); Ok(State(d, st.records)))
  {
    ParseKeyName(k);
  }

  /** `d` with field `k` taken from `r`. */
  function Put(d: TextRecordDraft, r: Record, k: Key): TextRecordDraft {
    match k
    case TxIdKey => d.(txId := Some(r.txId))
    case TxTypeKey => d.(txType := Some(r.txType))
    case ToUserIdKey => d.(toUserId := Some(r.toUserId))
    case FromUserIdKey => d.(fromUserId := Some(r.fromUserId))
    case TimestampKey => d.(timestamp := Some(r.timestamp))
    case DescriptionKey => d.(description := Some(r.description))
    case AmountKey => d.(amount := Some(r.amount))
    case StatusKey => d.(status := Some(r.status))
  }

  function PutAll(d: TextRecordDraft, keys: seq<Key>, r: Record): TextRecordDraft
    decreases |keys|
  {
    if |keys| == 0 then d else PutAll(Put(d, r, keys[0]), keys[1..], r)
  }

  /** Each printed value of a record sets its field to the record's value. */
  lemma SetFieldOfRecord(d: TextRecordDraft, r: Record, k: Key)
    ensures SetField(d, k, Printed(r, k)) == Ok(Put(d, r, k))
  {
    match k
    case TxIdKey => ParseShow(r.txId);
    case TxTypeKey => TypeStrRoundTrip(r.txType);
    case ToUserIdKey => ParseShow(r.toUserId);
    case FromUserIdKey => ParseShow(r.fromUserId);
    case TimestampKey => ParseShow(r.timestamp);
    case DescriptionKey =>
    case AmountKey => ParseShow(r.amount);
    case StatusKey => StatusStrRoundTrip(r.status);
  }

  lemma {:induction false} FillOfRecord(d: TextRecordDraft, keys: seq<Key>, r: Record)
    ensures Fill(d, keys, r) == Ok(PutAll(d, keys, r))
    decreases |keys|
  {
    if |keys| > 0 {
      SetFieldOfRecord(d, r, keys[0]);
      FillOfRecord(Put(d, r, keys[0]), keys[1..], r);
    }
  }

  /** Taking every field of `r` in the writer's order gives its draft. */
  lemma PutAllOfRecord(r: Record)
    ensures PutAll(EmptyDraft, WriteOrder, r) == DraftOf(r)
  {
    var o := WriteOrder;
    assert o[1..][1..] == o[2..] && o[2..][1..] == o[3..] && o[3..][1..] == o[4..];
    assert o[4..][1..] == o[5..] && o[5..][1..] == o[6..] && o[6..][1..] == o[7..];
    assert |o[7..][1..]| == 0;
  }

  /** The printed values of a safe record are single trimmed lines. */
  lemma PrintedIsPlain(r: Record, k: Key)
    requires TextSafe(r)
    ensures IsTrimmed(Printed(r, k)) && '\n' !in Printed(r, k)
  {
    match k
    case TxTypeKey =>
      TokensAreWords(r.txType, r.status, '\n');
      TokenTrimmed(r.txType, r.status);
    case StatusKey =>
      TokensAreWords(r.txType, r.status, '\n');
      TokenTrimmed(r.txType, r.status);
    case DescriptionKey =>
    case _ =>
      var n := Printed(r, k);
      assert IsDigit(n[0]) && IsDigit(n[|n| - 1]);
      assert forall i :: 0 <= i < |n| ==> IsDigit(n[i]);
  }

  lemma TokenTrimmed(t: TransactionType, s: TransactionStatus)
    ensures IsTrimmed(TypeToStr(t)) && IsTrimmed(StatusToStr(s))
  {
  }

  /** A safe record's block, followed by a blank line, is read back as that
      record, leaving an empty draft. */
  lemma ReadBlock(r: Record, acc: seq<Record>)
    requires TextSafe(r)
    ensures Run(State(EmptyDraft, acc), BlockLines(r) + [""]) == Ok(State(EmptyDraft, acc + [r]))
  {
    var s0 := State(EmptyDraft, acc);
    forall i | 0 <= i < |WriteOrder|
      ensures IsTrimmed(Printed(r, WriteOrder[i]))
    {
      PrintedIsPlain(r, WriteOrder[i]);
    }
    ReadKeyLines(s0, WriteOrder, r);
    FillOfRecord(EmptyDraft, WriteOrder, r);
    PutAllOfRecord(r);
    RunAppend(s0, BlockLines(r), [""]);
    RunOne(State(DraftOf(r), acc), "");
    FromDraftOf(r);
  }

  /** Reading a paragraph and its blank line, then the rest. */
  lemma ReadTwoParts(st: State, block: seq<string>, rest: seq<string>, mid: State, last: State)
    requires Run(st, block + [""]) == Ok(mid)
    requires Run(mid, rest + [""]) == Ok(last)
    ensures Run(st, block + [""] + rest + [""]) == Ok(last)
  {
    Associative(block + [""], rest, [""]);
    RunAppend(st, block + [""], rest + [""]);
  }

  /** The written lines of safe records, followed by a blank line, are read
      back as those records after the ones already read. */
  lemma {:induction false} ReadWritten(rs: seq<Record>, acc: seq<Record>)
    requires |rs| >= 1
    requires forall i :: 0 <= i < |rs| ==> TextSafe(rs[i])
    ensures Run(State(EmptyDraft, acc), Written(rs) + [""]) == Ok(State(EmptyDraft, acc + rs))
    decreases |rs|
  {
    ReadBlock(rs[0], acc);
    WrittenCons(rs, acc);
    if |rs| > 1 {
      SafeTail(rs);
      ReadWritten(rs[1..], acc + [rs[0]]);
      ReadTwoParts(State(EmptyDraft, acc), BlockLines(rs[0]), Written(rs[1..]),
                   State(EmptyDraft, acc + [rs[0]]), State(EmptyDraft, acc + [rs[0]] + rs[1..]));
    }
  }

  /** The written lines of the first record and of the rest. */
  lemma WrittenCons(rs: seq<Record>, acc: seq<Record>)
    requires |rs| >= 1
    ensures |rs| == 1 ==> Written(rs) + [""] == BlockLines(rs[0]) + [""] && acc + rs == acc + [rs[0]]
    ensures |rs| > 1 ==> Written(rs) + [""] == BlockLines(rs[0]) + [""] + Written(rs[1..]) + [""]
    ensures acc + rs == acc + [rs[0]] + rs[1..]
  {
    var bs := BlockList(rs);
    if |rs| > 1 {
      assert bs[1..] == BlockList(rs[1..]);
    }
    FrontAndRest(rs);
    Associative(acc, [rs[0]], rs[1..]);
  }

  lemma SafeTail(rs: seq<Record>)
    requires |rs| >= 1
    requires forall i :: 0 <= i < |rs| ==> TextSafe(rs[i])
    ensures forall i :: 0 <= i < |rs| - 1 ==> TextSafe(rs[1..][i])
  {
  }

  /** A record's block starts with its id and ends with its status. */
  lemma BlockEnds(r: Record)
    ensures |BlockLines(r)| == 8
    ensures BlockLines(r)[0] == KeyLine("TX_ID", Show(r.txId))
    ensures BlockLines(r)[7] == KeyLine("STATUS", StatusToStr(r.status))
  {
    assert WriteOrder[0] == TxIdKey && WriteOrder[7] == StatusKey;
  }

  /** The writer's lines number nine per record less one. */
  lemma WrittenLength(rs: seq<Record>)
    ensures |Written(rs)| == if |rs| == 0 then 0 else 9 * |rs| - 1
  {
    BlocksOfEight(rs);
    ParagraphsLength(BlockList(rs), 8);
  }

  /** Every record contributes a block of eight lines. */
  lemma BlocksOfEight(rs: seq<Record>)
    ensures forall i :: 0 <= i < |rs| ==> |BlockList(rs)[i]| == 8
  {
  }

  /** A record's block starts with the `T` of `TX_ID` and ends with the
      last character of a status token. */
  lemma BlockSolid(r: Record)
    ensures Solid(BlockLines(r))
  {
    BlockEnds(r);
    TokenTrimmed(r.txType, r.status);
    KeyLineEnds("TX_ID", Show(r.txId));
    KeyLineEnds("STATUS", StatusToStr(r.status));
  }

  lemma KeyLineEnds(name: string, value: string)
    requires |name| > 0 && |value| > 0
    ensures KeyLine(name, value)[0] == name[0]
    ensures KeyLine(name, value)[|KeyLine(name, value)| - 1] == value[|value| - 1]
  {
  }

  lemma BlockPlain(r: Record)
    requires TextSafe(r)
    ensures AllPlain(BlockLines(r))
  {
    forall i | 0 <= i < |WriteOrder|
      ensures IsPlainLine(BlockLines(r)[i])
    {
      var k := WriteOrder[i];
      KeyNamesAreWriterNames(k);
      PrintedIsPlain(r, k);
      PlainKeyLine(KeyName(k), Printed(r, k));
    }
  }

  lemma PlainKeyLine(name: string, value: string)
    requires '\n' !in name && '\n' !in value && IsTrimmed(value)
    ensures IsPlainLine(KeyLine(name, value))
  {
    var l := KeyLine(name, value);
    assert l == name + [':', ' '] + value;
    assert l[|l| - 1] == if |value| == 0 then ' ' else value[|value| - 1];
  }

  /** `write_to` emits eight lines per record with one blank line between
      records: nine per record less one in all, each read back by `lines()`
      as written. */
  lemma EncodeLines(rs: seq<Record>)
    requires forall i :: 0 <= i < |rs| ==> TextSafe(rs[i])
    ensures Lines(Encode(rs)) == Written(rs)
    ensures |Lines(Encode(rs))| == if |rs| == 0 then 0 else 9 * |rs| - 1
  {
    var bs := BlockList(rs);
    forall i | 0 <= i < |bs|
      ensures Solid(bs[i]) && AllPlain(bs[i])
    {
      BlockSolid(rs[i]);
      BlockPlain(rs[i]);
    }
    WrittenLength(rs);
    if |rs| == 0 {
      EncodeNothing(rs);
    } else {
      StanzasLines(bs);
    }
  }

  lemma EncodeNothing(rs: seq<Record>)
    requires |rs| == 0
    ensures Encode(rs) == "" && Written(rs) == [] && Lines(Encode(rs)) == []
  {
    assert Stanzas(BlockList(rs)) == "";
  }

  /** Records whose descriptions are trimmed single lines are read back as
      written. */
  lemma DecodeEncode(rs: seq<Record>)
    requires forall i :: 0 <= i < |rs| ==> TextSafe(rs[i])
    ensures Decode(Encode(rs)) == Ok(rs)
  {
    EncodeLines(rs);
    if |rs| == 0 {
      assert Written(rs) == [];
      DecodeNoLines(Encode(rs));
    } else {
      ReadWritten(rs, []);
      DecodeReadLines(Encode(rs), Written(rs), rs);
    }
  }

  lemma DecodeNoLines(s: string)
    requires Lines(s) == []
    ensures Decode(s) == Ok([])
  {
  }

  /** Text whose lines, with a blank line after them, are read as `rs`
      decodes to `rs`. */
  lemma DecodeReadLines(s: string, w: seq<string>, rs: seq<Record>)
    requires Lines(s) == w
    requires Run(State(EmptyDraft, []), w + [""]) == Ok(State(EmptyDraft, [] + rs))
    ensures Decode(s) == Ok(rs)
  {
    DecodeAsFlush(w);
    assert [] + rs == rs;
  }

  // Parsing TX_ID as the reader does it

  /** What a call into the reader can end in: a value, or a panic. */
  datatype Outcome<T> = Returned(result: Result<T, ParseError>) | Panicked

  /** The `match key` of `read_from` as it stands: `TX_ID` is parsed with
      `unwrap()`, so a value that is not a `u64` panics instead of
      returning an error. Every other line behaves as in `MatchKey`. */
  function MatchKeyAsWritten(d: TextRecordDraft, name: string, value: string): (o: Outcome<TextRecordDraft>)
    ensures o.Panicked? <==> name == "TX_ID" && ParseU64(value).None?
    ensures o.Returned? ==> o.result == MatchKey(d, name, value)
  {
    if name == "TX_ID" then
      match ParseU64(value)
      case None => Panicked
      case Some(n) => Returned(Ok(d.(txId := Some(n))))
    else
      Returned(MatchKey(d, name, value))
  }

  /** A record whose id is not a number: the reader as written panics,
      while the corrected reader reports an invalid number, as it does for
      every other numeric field. */
  lemma BadTxIdPanicsAsWritten()
    ensures MatchKeyAsWritten(EmptyDraft, "TX_ID", "abc") == Panicked
    ensures MatchKey(EmptyDraft, "TX_ID", "abc") == Err(InvalidNumber)
    ensures MatchKey(EmptyDraft, "AMOUNT", "abc") == Err(InvalidNumber)
  {
    assert ParseU64("abc").None?;
  }
}
