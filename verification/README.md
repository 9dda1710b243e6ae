# Transaction record codecs, modelled in Dafny

This project models the record-serialisation layer of the `rust-parser`
workspace and proves properties of it:

- The eight-field `Record`, the `TransactionType` and `TransactionStatus`
  enums with their byte and string codes, the `TextRecordDraft` builder and
  `Record::from_draft` (module `Model`), and the `ParseError` taxonomy
  (module `Errors`).
- The length-framed binary format: magic `YPBN`, a big-endian `u32`
  `record_size`, 46 bytes of fixed fields, then the UTF-8 description
  (module `BinFormat`).
- The CSV format: a header line, then one comma-separated line of eight
  fields per record (module `CsvFormat`).
- The key-value text format: a line-driven reader that fills a draft from
  `KEY: value` lines and finishes it on a blank line or at the end of input
  (module `TextFormat`; the block layout of the writer is in `Layout`).
- `is_equal_transactions`, the comparison of two decoded record lists
  (module `Comparer`).

Each codec is a pair of pure functions. `Encode` maps a list of records to
the bytes or text `write_to` produces. `Decode` maps bytes or text to the
`Result` `read_from` returns. There is one exception, in the text reader: a
`TX_ID` value that is not a number makes the code panic, and
`TextFormat.Decode` returns `InvalidNumber` instead. The code's own
behaviour is modelled separately (see "Findings").

The standard library behaviour the codecs rely on is written out in its own
modules:

- `Bytes`: `to_be_bytes` and `from_be_bytes`.
- `Utf8`: `as_bytes` and `String::from_utf8`.
- `Decimal`: `u64`'s `Display` and `FromStr`, including the optional
  leading `+`.
- `Strings`:
  - `str::trim`, using Unicode's White_Space set.
  - `split` and `splitn(2, ':')`.
  - `BufRead::lines`: split on line feeds, strip one carriage return before
    a line feed, and no final empty line.
  - `BufRead::read_line`.

Integers are `u32`/`u64` subset types. Bytes are a `byte` subset type.

Some behaviours of the code are easy to miss, and the model keeps them:

- In the binary reader, fewer than eight bytes left at a frame boundary end
  the input without an error. This includes a partial header, because
  `read_exact` failing with `UnexpectedEof` ends the loop
  (formats/src/bin_format.rs:34-38).
- The CSV reader never inspects the header line. It skips lines that are
  blank after trimming anywhere after the header
  (formats/src/csv_format.rs:26-34).
- `is_equal_transactions` compares sets, not multisets. Repeats count only
  in its second argument (cli/src/bin/comparer.rs:47-59).
- Invalid UTF-8 is reported differently by the two text readers. The
  key-value reader maps it to `Io` (formats/src/text_format.rs:42). The CSV
  reader maps it to `Io` in the header, through `read_line(...)?`, and to
  `MalformedLine` in any later line (formats/src/csv_format.rs:27-30).

## Model

| member | source | states |
|---|---|---|
| Model.TypeToByte | core/src/model.rs:91-97 | The type code is below 3 |
| Model.TypeFromByte | core/src/model.rs:99-106 | A byte is accepted exactly when it is below 3, as the type whose code it is; any other byte fails with `UnknownTransactionTypeByte` carrying that byte |
| Model.TypeByteRoundTrip | core/src/model.rs:91-106 | Decoding a type's code gives back the type |
| Model.TypeToStr | core/src/model.rs:108-114 | The type name is one of `DEPOSIT`, `TRANSFER`, `WITHDRAWAL` |
| Model.TypeParse | core/src/model.rs:116-125 | A name is accepted exactly when it is one of the three, as the type with that name; any other text fails with `UnknownTransactionTypeString` carrying it |
| Model.TypeStrRoundTrip | core/src/model.rs:108-125 | Parsing a type's name gives back the type |
| Model.StatusToByte | core/src/model.rs:136-142 | The status code is below 3 |
| Model.StatusFromByte | core/src/model.rs:144-153 | A byte is accepted exactly when it is below 3, as the status whose code it is; any other byte fails with `UnknownTransactionStatusByte` carrying that byte |
| Model.StatusByteRoundTrip | core/src/model.rs:136-153 | Decoding a status's code gives back the status |
| Model.StatusToStr | core/src/model.rs:155-161 | The status name is one of `SUCCESS`, `FAILURE`, `PENDING` |
| Model.StatusParse | core/src/model.rs:163-172 | A name is accepted exactly when it is one of the three, as the status with that name; any other text fails with `UnknownTransactionStatusString` carrying it |
| Model.StatusStrRoundTrip | core/src/model.rs:155-172 | Parsing a status's name gives back the status |
| Model.TokensAreWords | core/src/model.rs:108-114 | Type and status names hold only capital letters, so no separator of any format occurs in them |
| Model.IsEmptyIffBlank | core/src/model.rs:71-80 | A draft is empty exactly when all eight fields are absent |
| Model.IsEmpty | core/src/model.rs:71-80 | Definition. Stated by Model.IsEmptyIffBlank: a draft is empty exactly when all eight fields are absent |
| Model.Reset | core/src/model.rs:60-69 | After a reset the draft is empty |
| Model.FromDraft | core/src/model.rs:18-44 | A record built from a draft carries exactly the draft's eight values |
| Model.FromDraftChecksInOrder | core/src/model.rs:18-44 | A draft becomes a record exactly when all eight fields are present; otherwise the error is `MissingField` naming the first absent field in the order tx_id, from_user_id, to_user_id, amount, tx_type, timestamp, status, description |
| Model.FromDraftOf | core/src/model.rs:18-44 | The draft holding a record's fields gives back that record |
| Bytes.ToBigEndian | formats/src/bin_format.rs:132-139 | `to_be_bytes` gives exactly `width` bytes that read back as the number |
| Bytes.ToBigEndianOfFromBigEndian | formats/src/bin_format.rs:163-177 | Reading bytes as a big-endian number and writing it back at the same width gives the same bytes |
| Bytes.U32BytesRoundTrip | formats/src/bin_format.rs:171-177 | Four bytes read by `u32` and written by `to_be_bytes` are unchanged |
| Bytes.U64BytesRoundTrip | formats/src/bin_format.rs:163-169 | Eight bytes read by `u64` and written by `to_be_bytes` are unchanged |
| Decimal.Show | formats/src/csv_format.rs:103-113 | A `u64` is printed as one or more digits with no leading zero whose value is the number |
| Decimal.ParseU64 | formats/src/csv_format.rs:121-125 | A text is accepted exactly when it is an optional `+` followed by one or more digits whose value is below 2^64, and the result is that value |
| Decimal.ParseShow | formats/src/text_format.rs:137-139 | Parsing a printed `u64` gives back the number |
| Decimal.ShowHasNoSeparators | formats/src/csv_format.rs:103-113 | A printed number holds no comma, whitespace or line feed |
| Utf8.EncodeChar | formats/src/bin_format.rs:137 | A character is written as one to four bytes that decode back to it |
| Utf8.DecodeEncode | formats/src/bin_format.rs:78-79 | `from_utf8` of `as_bytes` gives back the string |
| Utf8.EncodeDecode | formats/src/bin_format.rs:78-79 | Bytes that `from_utf8` accepts are exactly the bytes of the string it returns |
| Utf8.Encode | formats/src/bin_format.rs:137 | A string has at least as many bytes as it has characters. Stated further by Utf8.DecodeEncode: `from_utf8` of the bytes gives the string back |
| Utf8.Decode | formats/src/bin_format.rs:78-79 | Definition. Stated by Utf8.DecodeEncode and Utf8.EncodeDecode: the bytes accepted are exactly the bytes of some string, and the result is that string |
| Strings.Trim | formats/src/text_format.rs:43 | `trim` removes leading and trailing whitespace only: the result is trimmed, a trimmed text is unchanged, and the result is empty exactly when the input is all whitespace |
| Strings.TrimMiddle | formats/src/text_format.rs:43 | What `trim` keeps is the input's middle: it starts where the leading whitespace ends, and only whitespace comes after it |
| Strings.Split | formats/src/csv_format.rs:35 | `split` gives at least one part, no part contains the separator, and the parts joined by the separator give back the text |
| Strings.SplitJoin | formats/src/csv_format.rs:35 | Splitting parts joined by a separator they do not contain gives back the parts |
| Strings.SplitOnce | formats/src/text_format.rs:58-60 | `splitn(2, ':')` gives the text before the first `:` and, when there is one, the text after it |
| Strings.Lines | formats/src/csv_format.rs:29 | No line `lines()` yields contains a line feed, and there are none exactly when the input is empty |
| Strings.LinesOfUnlines | formats/src/csv_format.rs:29 | Lines each ended by a line feed, then an unfinished last line, are given back by `lines()` |
| Strings.LinesOfJoin | formats/src/text_format.rs:41 | Lines joined by line feeds, the last non-empty, are given back by `lines()` |
| BinFormat.FixedFields | formats/src/bin_format.rs:147-154 | The fixed part of a body is 46 bytes |
| BinFormat.EncodeRecord | formats/src/bin_format.rs:131-156 | A record's frame is 54 bytes plus the description's UTF-8 length, so 71 bytes for a 17-byte description |
| BinFormat.EncodeAppend | formats/src/bin_format.rs:131-156 | Writing a list is writing each record's frame in list order |
| BinFormat.FrameLayout | formats/src/bin_format.rs:138-155 | A frame holds `YPBN`, then the big-endian size 46 + n, tx_id, type code, from, to, amount, timestamp, status code, the length n, and the description bytes, at offsets 0, 4, 8, 16, 17, 25, 33, 41, 49, 50 and 54 |
| BinFormat.BodyLayout | formats/src/bin_format.rs:63-76 | The same layout counted from the start of the body, at the offsets the reader uses |
| BinFormat.ReadU64 | formats/src/bin_format.rs:163-169 | The read succeeds exactly when eight bytes are there; otherwise it fails with `RecordTooShort` |
| BinFormat.ReadU32 | formats/src/bin_format.rs:171-177 | The read succeeds exactly when four bytes are there; otherwise it fails with `RecordTooShort` |
| BinFormat.ReadU8 | formats/src/bin_format.rs:179-182 | The byte at the position when there is one; otherwise `RecordTooShort` |
| BinFormat.ReadFrame | formats/src/bin_format.rs:45-79 | An accepted frame spans at least 54 bytes and no more than the input |
| BinFormat.Decode | formats/src/bin_format.rs:28-95 | Fewer than eight bytes decode to no records, a wrong magic fails with `InvalidMagic`, and a size outside 46..150 fails with `UnexpectedRecordSize` carrying the declared size |
| BinFormat.DecodeAsWritten | formats/src/bin_format.rs:28-95 | As for the corrected reader: fewer than eight bytes decode to no records, a wrong magic fails with `InvalidMagic`, and a size outside 46..150 fails with `UnexpectedRecordSize` carrying the declared size. Stated further by BinFormat.DecodeAsWrittenAgrees |
| BinFormat.Encode | formats/src/bin_format.rs:124-161 | Each record adds at least 54 bytes. Stated further by BinFormat.DecodeEncode |
| BinFormat.ParseFixedOfEncoded | formats/src/bin_format.rs:63-70 | The fixed fields of a written body read back as the record's own |
| BinFormat.ParseBodyOfEncoded | formats/src/bin_format.rs:63-79 | A written body parses back to its record when its description fits the size limit |
| BinFormat.ReadFrameOfEncoded | formats/src/bin_format.rs:33-91 | A written frame, whatever follows it, is read back as its record and its own length |
| BinFormat.DecodeAfterFrameOk | formats/src/bin_format.rs:33-92 | After a frame is read, its record comes before the records of the bytes that follow |
| BinFormat.DecodeAfterFrameErr | formats/src/bin_format.rs:33-92 | After a frame is read, a failure in the bytes that follow is the result |
| BinFormat.DecodeEncodedPrefix | formats/src/bin_format.rs:28-95 | Written frames are read one after another, and reading continues into whatever follows them |
| BinFormat.DecodeEncode | formats/src/bin_format.rs:28-161 | Reading what the writer wrote gives back the records in order, when every description is at most 104 bytes |
| BinFormat.LongFrameRejected | formats/src/bin_format.rs:55-57 | A frame whose description is over 104 bytes fails with `UnexpectedRecordSize(46 + n)` |
| BinFormat.LongDescriptionRejected | formats/src/bin_format.rs:55-57 | Such a description is written without complaint, and reading the output fails at its frame with `UnexpectedRecordSize(46 + n)` |
| BinFormat.ShortBodyRejected | formats/src/bin_format.rs:59-61 | A sound header followed by fewer bytes than it declares fails with `UnexpectedEof` giving the bytes needed and the bytes there |
| BinFormat.BodyErrorStopsDecode | formats/src/bin_format.rs:63-79 | A failure in a frame's body is the result of the whole read |
| BinFormat.BadTypeBody | formats/src/bin_format.rs:64 | An unknown type code at body offset 8 fails with that byte |
| BinFormat.BadTypeByteRejected | formats/src/bin_format.rs:63-64 | An unknown type code at offset 16 of a sound frame fails the read with that byte |
| BinFormat.BadStatusBody | formats/src/bin_format.rs:64-69 | With a known type code, an unknown status code at body offset 41 fails with that byte |
| BinFormat.BadStatusByteRejected | formats/src/bin_format.rs:63-69 | With a known type code, an unknown status code at offset 49 of a sound frame fails the read with that byte; the enum checks come before the length check |
| BinFormat.ParseFixedOfKnownCodes | formats/src/bin_format.rs:63-70 | With both codes known, the fixed fields are read as the bytes stand |
| BinFormat.ParseFixed | formats/src/bin_format.rs:63-70 | Definition. Stated by BinFormat.ParseFixedOfKnownCodes, BinFormat.BadTypeBody and BinFormat.BadStatusBody: with known codes the fields are read as the bytes stand, and an unknown code fails with that byte |
| BinFormat.ParseBody | formats/src/bin_format.rs:63-79 | Definition. Stated by BinFormat.DamagedBody, BinFormat.InvalidDescriptionBody and BinFormat.ParseBodyOfEncoded: a length that disagrees with the size is `RecordDamaged`, a description that is not UTF-8 is `InvalidUtf8`, and a written body reads back as its record |
| BinFormat.DamagedBody | formats/src/bin_format.rs:70-74 | With both codes known, a description length other than record_size − 46 fails with `RecordDamaged` carrying the frame's tx_id |
| BinFormat.DamagedLengthRejected | formats/src/bin_format.rs:63-74 | The same, for a frame read from the input |
| BinFormat.InvalidDescriptionBody | formats/src/bin_format.rs:63-79 | With both codes known and the length agreeing with the size, a description that is not UTF-8 fails with `InvalidUtf8` |
| BinFormat.InvalidDescriptionRejected | formats/src/bin_format.rs:28-95 | The same, for a frame read from the input: its `InvalidUtf8` is the whole read's result |
| BinFormat.DecodeAsWrittenAgrees | formats/src/bin_format.rs:28-95 | The reader as written and the corrected reader give the same result on every input except those the corrected reader refuses as cut short |
| BinFormat.BareHeaderAsWritten | formats/src/bin_format.rs:59-61 | As written, a sound header declaring 46 bytes with nothing after it reads as one all-zero record |
| BinFormat.BareHeaderRejected | formats/src/bin_format.rs:59-61 | The corrected reader refuses that input with `UnexpectedEof(46, 0)` |
| CsvFormat.Fields | formats/src/csv_format.rs:103-113 | A record prints as eight fields |
| CsvFormat.Rows | formats/src/csv_format.rs:102-114 | One line per record, in input order |
| CsvFormat.SkipHeader | formats/src/csv_format.rs:26-27 | What `read_line` leaves is a suffix of the input, so the header it takes is a prefix |
| CsvFormat.Require | formats/src/csv_format.rs:38-46 | A missing field is `MalformedLine`; a present one is passed on as it is |
| CsvFormat.ParseNumber | formats/src/csv_format.rs:121-125 | A missing field is `MalformedLine`, a field that is not a `u64` is `InvalidNumber`, and otherwise the field's value |
| CsvFormat.DecodeLines | formats/src/csv_format.rs:29-63 | A successful read gives at most one record per line |
| CsvFormat.ParseFieldsSound | formats/src/csv_format.rs:35-61 | A line is read as a record only when its eight fields spell that record |
| CsvFormat.ParseFieldsComplete | formats/src/csv_format.rs:35-61 | Eight fields that spell a record are read as that record |
| CsvFormat.ParseFieldsChecksInOrder | formats/src/csv_format.rs:35-50 | A line is read exactly when it has eight well-formed fields and no ninth; otherwise the error is that of the first bad field in reading order (`MalformedLine` when it is missing, `InvalidNumber`, or the enum error), or `MalformedLine` for a ninth field |
| CsvFormat.ParseFields | formats/src/csv_format.rs:35-61 | Definition. Stated by CsvFormat.ParseFieldsSound, CsvFormat.ParseFieldsComplete and CsvFormat.ParseFieldsChecksInOrder: eight well-formed fields and no ninth are read as the record they spell; otherwise the error is the first bad field's |
| CsvFormat.FirstBad | formats/src/csv_format.rs:36-46 | The first field from a given position that is absent or malformed, or 8 when all are sound |
| CsvFormat.AllValid | formats/src/csv_format.rs:48-50 | With eight sound fields, a line is read exactly when there is no ninth; a ninth is `MalformedLine` |
| CsvFormat.FieldsSpell | formats/src/csv_format.rs:103-113 | The printed fields spell the record back |
| CsvFormat.FieldsAvoid | formats/src/csv_format.rs:103-113 | No printed field except the description holds a comma, a line feed or whitespace |
| CsvFormat.ParseRow | formats/src/csv_format.rs:35-61 | A record's line is read back as the record when the description has no comma |
| CsvFormat.RowIsTrimmed | formats/src/csv_format.rs:31-34 | A safe record's line is not blank and trimming leaves it unchanged |
| CsvFormat.SkipHeaderOf | formats/src/csv_format.rs:26-27 | The whole first line is taken as the header |
| CsvFormat.HeaderIgnored | formats/src/csv_format.rs:26-29 | Any first line will do; only the lines after it are read |
| CsvFormat.HeaderOnly | formats/src/csv_format.rs:26-29 | Input without a line feed holds no records |
| CsvFormat.BlankFirstLine | formats/src/csv_format.rs:31-34 | A line that is blank once trimmed is skipped |
| CsvFormat.BlankLineSkipped | formats/src/csv_format.rs:31-34 | Removing a blank line anywhere after the header does not change the result |
| CsvFormat.ParsedFirstLine | formats/src/csv_format.rs:52-61 | A parsed line's record comes before the records of the lines after it |
| CsvFormat.DecodeRows | formats/src/csv_format.rs:29-63 | The written lines of safe records are read back as the records |
| CsvFormat.EncodeLines | formats/src/csv_format.rs:99-116 | `lines()` of the output is the header, then one line per record, so three records give four lines |
| CsvFormat.DecodeEncode | formats/src/csv_format.rs:23-119 | Reading what the writer wrote gives back the records in order, when no description holds a comma or line break or has whitespace at either end |
| CsvFormat.Encode | formats/src/csv_format.rs:95-119 | Definition. Stated by CsvFormat.EncodeLines and CsvFormat.DecodeEncode: the header and then one line per record, which read back as the records |
| CsvFormat.Decode | formats/src/csv_format.rs:23-64 | Definition. Stated by CsvFormat.HeaderIgnored, CsvFormat.BlankLineSkipped and CsvFormat.DecodeEncode: the first line is ignored, blank lines are skipped, and written output reads back |
| TextFormat.ParseKey | formats/src/text_format.rs:62-71 | A name denotes the key written with exactly that name, and no key when no key has that name |
| TextFormat.ParseKeyName | formats/src/text_format.rs:62-71 | Each key's name denotes that key |
| TextFormat.ParseStr | formats/src/text_format.rs:137-139 | A value is accepted exactly when it is a `u64`; otherwise `InvalidNumber` |
| TextFormat.SetField | formats/src/text_format.rs:63-70 | A value is accepted exactly when its field can read it, and then only that field changes, to the value; a bad number is `InvalidNumber` and a bad type or status name the enum error carrying the text. A bad `TX_ID` is `InvalidNumber` too, which corrects the code's panic (see "Findings") |
| TextFormat.MatchKey | formats/src/text_format.rs:62-72 | A line sets a field exactly when its key is known and its value readable; an unknown key is `MalformedLine` |
| TextFormat.Apply | formats/src/text_format.rs:62-72 | A key line does not change the finished records |
| TextFormat.Flush | formats/src/text_format.rs:45-49 | A blank line leaves an empty draft and adds at most one record after the earlier ones |
| TextFormat.Step | formats/src/text_format.rs:41-72 | One line adds at most one record after the earlier ones |
| TextFormat.Run | formats/src/text_format.rs:41-73 | Reading lines adds at most one record per line after the earlier ones |
| TextFormat.Finish | formats/src/text_format.rs:74-78 | At the end of input an empty draft adds nothing, and a non-empty one adds at most one record |
| TextFormat.KeyLines | formats/src/text_format.rs:118-128 | One `KEY: value` line per key, in the order given |
| TextFormat.BlockList | formats/src/text_format.rs:117-130 | One block of lines per record, in input order |
| TextFormat.ClassifyKeyLine | formats/src/text_format.rs:43-60 | A line the writer prints is seen by the reader as that key and value |
| TextFormat.Classify | formats/src/text_format.rs:43-60 | A line is blank exactly when it is empty after trimming. It is a comment exactly when its trimmed text starts with `#`. It is malformed exactly when its trimmed text is otherwise and holds no colon. A key line's name holds no colon, and both name and value are trimmed |
| TextFormat.BlankLineIdle | formats/src/text_format.rs:50-51 | A blank line while the draft is empty changes nothing |
| TextFormat.BlankLineClears | formats/src/text_format.rs:45-49 | After a blank line the draft is empty |
| TextFormat.BlankLineFinishes | formats/src/text_format.rs:45-49 | A blank line after a non-empty draft adds exactly its record and clears the draft, or fails with the draft's `MissingField` |
| TextFormat.CommentLineIgnored | formats/src/text_format.rs:54-56 | A line starting with `#` changes nothing |
| TextFormat.LineWithoutColonRejected | formats/src/text_format.rs:58-60 | A non-blank, non-comment line without `:` is `MalformedLine` |
| TextFormat.UnknownKeyRejected | formats/src/text_format.rs:71 | A key line with a key that is none of the eight is `MalformedLine` |
| TextFormat.BadValueRejected | formats/src/text_format.rs:64-70 | A value its field cannot read stops the reader: `InvalidNumber` for numbers, the enum error for type and status names |
| TextFormat.SetFieldsCommute | formats/src/text_format.rs:62-70 | Setting two different fields in either order gives the same draft |
| TextFormat.SetFieldOverwrites | formats/src/text_format.rs:62-70 | Setting a field again replaces the earlier value |
| TextFormat.RunAppend | formats/src/text_format.rs:41-73 | Reading two pieces of input is reading the first, then the second from where the first left off |
| TextFormat.NoOpLineDropped | formats/src/text_format.rs:41-73 | A line that leaves the state unchanged where it occurs can be removed |
| TextFormat.CommentIgnoredAnywhere | formats/src/text_format.rs:54-56 | Removing a comment line anywhere does not change the result |
| TextFormat.RepeatedBlankLine | formats/src/text_format.rs:45-52 | Two blank lines in a row have the effect of one |
| TextFormat.KeyLinesCommute | formats/src/text_format.rs:62-70 | Two adjacent lines for different keys can be swapped without changing the result |
| TextFormat.RepeatedKeyOverwrites | formats/src/text_format.rs:62-70 | When a key appears twice in a row, the second value wins |
| TextFormat.IncompleteLastRecord | formats/src/text_format.rs:74-77 | A non-empty draft left at the end of input that lacks fields is refused with `MissingField` for its first absent field |
| TextFormat.DecodeAsFlush | formats/src/text_format.rs:41-78 | The end of input acts as one more blank line |
| TextFormat.ReadKeyLines | formats/src/text_format.rs:41-72 | Key lines the writer prints are read one field at a time |
| TextFormat.ReadBlock | formats/src/text_format.rs:41-72 | A safe record's eight lines and a blank line are read as exactly that record, leaving an empty draft |
| TextFormat.ReadWritten | formats/src/text_format.rs:41-78 | The written lines of safe records, then a blank line, are read as the records in order |
| TextFormat.WrittenLength | formats/src/text_format.rs:117-132 | The writer's lines number nine per record, less one |
| TextFormat.BlockEnds | formats/src/text_format.rs:118-119 | A record's block has eight lines, starting with `TX_ID` and ending with `STATUS` |
| TextFormat.EncodeLines | formats/src/text_format.rs:117-132 | `lines()` of the trimmed output is eight lines per record with one empty line between records: 8 lines for one record, 26 for three |
| TextFormat.DecodeEncode | formats/src/text_format.rs:26-135 | Reading what the writer wrote gives back the records in order, when no description holds a line break or has whitespace at either end |
| TextFormat.Encode | formats/src/text_format.rs:110-135 | Definition. Stated by TextFormat.EncodeLines and TextFormat.DecodeEncode: eight lines per record with a blank line between records, which read back as the records |
| TextFormat.Decode | formats/src/text_format.rs:26-79 | Definition. Stated by TextFormat.DecodeAsFlush and TextFormat.DecodeEncode: the end of input finishes the last record, and written output reads back. A `TX_ID` value that is not a number is `InvalidNumber`, where the code panics |
| TextFormat.MatchKeyAsWritten | formats/src/text_format.rs:62-72 | As written, a line sets the same fields as the corrected match and fails the same way, except that a `TX_ID` value that is not a number panics |
| TextFormat.BadTxIdPanicsAsWritten | formats/src/text_format.rs:63-67 | `TX_ID: abc` panics as written, while the corrected reader and every other numeric key give `InvalidNumber` |
| Layout.StanzasLines | formats/src/text_format.rs:117-132 | Blocks each followed by an empty line, once trimmed, are given back by `lines()` as the blocks with one empty line between them |
| Layout.ParagraphsLength | formats/src/text_format.rs:119 | Blocks of n lines give n + 1 lines per block, less one |
| Comparer.IsEqualTransactions | cli/src/bin/comparer.rs:47-59 | The result is true exactly when both lists hold the same set of records and the second list has no repeats |
| Comparer.NotDistinctOrMissing | cli/src/bin/comparer.rs:51-55 | A record of the second list no longer in the set means the lists differ |
| Comparer.DrainedExactly | cli/src/bin/comparer.rs:58 | An unmatched record of the first list left at the end means the lists differ |
| Comparer.SelfComparison | cli/src/bin/comparer.rs:117-122 | A list compared with itself is accepted exactly when it has no repeats |
| Comparer.RepeatsAreAsymmetric | cli/src/bin/comparer.rs:48-52 | `[a, a]` against `[a]` is accepted, and `[a]` against `[a, a]` is not |
| Comparer.OrderIndependent | cli/src/bin/comparer.rs:47-59 | Reordering either list does not change the result |
| Comparer.DistinctByCount | cli/src/bin/comparer.rs:51-55 | A list has no repeats exactly when every record occurs at most once in it |
| Comparer.SameRecordsIsEquivalence | cli/src/bin/comparer.rs:47-59 | The multiset comparison is reflexive, symmetric and transitive, and lists it accepts hold the same records and are equally long |
| Comparer.DistinctListsAgree | cli/src/bin/comparer.rs:47-59 | On lists without repeats, the set comparison and the multiset comparison agree |
| Comparer.RepeatedRecordAgainstItself | cli/src/bin/comparer.rs:47-59 | `[a, a]` against itself is rejected by the set comparison and accepted by the multiset comparison |

## Left out

- Stream I/O is not modelled: `BufReader`, `BufWriter`, `read_exact` and `write_all`. Inputs are whole byte sequences or strings, and outputs are the bytes or text written. The ignored result of `write_all` (formats/src/bin_format.rs:158) is not modelled either, so every `write_to` succeeds.
- I/O errors are not modelled: the `Io` variant exists, but no codec produces it.
- Invalid UTF-8 in text and CSV input is not modelled. `TextFormat.Decode` and `CsvFormat.Decode` take a string that is already decoded. The key-value reader maps invalid UTF-8 to `Io` (formats/src/text_format.rs:42). The CSV reader maps it to `Io` in the header line (formats/src/csv_format.rs:27) and to `MalformedLine` in later lines (formats/src/csv_format.rs:29-30).
- TextFormat.Decode: a `TX_ID` value that is not a number is read as `InvalidNumber`. The code panics instead, through `unwrap` (formats/src/text_format.rs:63). `TextFormat.SetField` and `TextFormat.MatchKey` give the corrected reading that `Decode` uses. `TextFormat.MatchKeyAsWritten` models the panic, and `TextFormat.BadTxIdPanicsAsWritten` exhibits it.
- Binary input is bytes, and description bytes are checked with the model of `String::from_utf8` in `Utf8`. The payload of `InvalidUtf8` is left abstract.
- `Display` for `ParseError`, `TransactionType` and `TransactionStatus` is not modelled. It formats messages only.
- The `Reader` trait and `Format` enum in core/src/model.rs are not modelled.
- `InvalidArgument` is declared but no codec produces it.
- Of the CLI, only `is_equal_transactions` is modelled. It is left out: argument parsing, file handling, `main`, and the converter binary.
- The root crate (`src/`) is not part of this model. It is an earlier prototype with different types.
- BinFormat.DecodeAsWritten: the as-written reader's short body is modelled as the bytes that were there followed by zeros. Rust's standard library does not promise what the buffer holds after `read_exact` fails.
- BinFormat.Decode: the corrected reader refuses a short body with `UnexpectedEof`, and the code as written does not. The finding below records the difference.
- BinFormat.LongFrameRejected: stated only for descriptions shorter than 2^32 − 46 bytes. Beyond that, the writer's `as u32` casts wrap the size and length fields. `BinFormat.EncodeRecord` models the wrap explicitly, but no lemma states what a reader makes of such a frame.
- BinFormat.ReadU64: the `RecordTooShort` paths of the slice helpers cannot be reached from `read_from`, because every body is at least 46 bytes. The helpers are modelled on their own.
- The 71-byte and 213-byte example inputs of the binary reader's documentation and tests are not decoded in the model. `BinFormat.EncodeRecord` gives the 71-byte length in general form.

## Findings

| source | as written | input that shows it | evidently intended | confidence | as-written member | corrected member |
|---|---|---|---|---|---|---|
| formats/src/bin_format.rs:59-61 | The result of reading the body is discarded, so a body cut short by the end of input is parsed from a partly filled, zero-initialised buffer | The 8 bytes `YPBN 00 00 00 2E` (a header declaring a 46-byte body, with no body) read as one record of all zeros | A cut-short body is an error, not a record | not executed | BinFormat.BareHeaderAsWritten | BinFormat.BareHeaderRejected |
| formats/src/text_format.rs:63 | `TX_ID` is parsed with `unwrap`, so a value that is not a number panics; every other numeric key returns `InvalidNumber` | The line `TX_ID: abc` | `InvalidNumber`, as for `AMOUNT: abc` | not executed | TextFormat.BadTxIdPanicsAsWritten | TextFormat.MatchKey |
| cli/src/bin/comparer.rs:47-59 | The first list goes into a hash set, so a record repeated in it is counted once, while a repeat in the second list finds its record already removed | `[a, a]` compared with `[a, a]` is reported as different | A list compared with itself is equal; two lists are equal when they hold the same records the same number of times | not executed | Comparer.RepeatedRecordAgainstItself | Comparer.SameRecordsIsEquivalence |
