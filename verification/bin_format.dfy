/** The length-framed binary format. Each record is one frame:

      offset  width  field
           0      4  magic "YPBN"
           4      4  record_size, big-endian: the bytes after this field
           8      8  tx_id
          16      1  tx_type code
          17      8  from_user_id
          25      8  to_user_id
          33      8  amount
          41      8  timestamp
          49      1  status code
          50      4  description length
          54      n  description, UTF-8

    so record_size is 46 + n, and a reader accepts 46..150. */
module BinFormat {
  import opened Bytes
  import opened Seqs
  import opened Results
  import opened Errors
  import opened Model
  import Utf8

  const MAGIC: seq<byte> := [0x59, 0x50, 0x42, 0x4E]
  const MIN_RECORD_SIZE: nat := 46
  const MAX_RECORD_SIZE: nat := 150
  const HEADER_SIZE: nat := 8

  /** The description as it travels on the wire. */
  function DescriptionBytes(r: Record): seq<byte> {
    Utf8.Encode(r.description)
  }

  /** A record whose frame a reader accepts: its description fits under
      the 150-byte cap on record_size. */
  predicate FitsFrame(r: Record) {
    |DescriptionBytes(r)| <= MAX_RECORD_SIZE - MIN_RECORD_SIZE
  }

  // Writing

  /** The 46 bytes after the header and before the description. Both
      lengths are cast to 32 bits, so they wrap for descriptions of 4 GiB. */
  function FixedFields(r: Record): (f: seq<byte>)
    ensures |f| == 46
  {
    var n := |DescriptionBytes(r)|;
    U64ToBytes(r.txId) + [TypeToByte(r.txType)]
      + U64ToBytes(r.fromUserId) + U64ToBytes(r.toUserId)
      + U64ToBytes(r.amount) + U64ToBytes(r.timestamp)
      + [StatusToByte(r.status)] + U32ToBytes(n % U32_LIMIT)
  }

  /** One frame, as `write_to` appends it for each record. */
  function EncodeRecord(r: Record): (frame: seq<byte>)
    ensures |frame| == HEADER_SIZE + MIN_RECORD_SIZE + |DescriptionBytes(r)|
  {
    var n := |DescriptionBytes(r)|;
    MAGIC + U32ToBytes((MIN_RECORD_SIZE + n) % U32_LIMIT) + FixedFields(r) + DescriptionBytes(r)
  }

  /** `write_to`: the frames of the records, in order, back to back. */
  function Encode(rs: seq<Record>): (bytes: seq<byte>)
    ensures |bytes| >= (HEADER_SIZE + MIN_RECORD_SIZE) * |rs|
  {
    if |rs| == 0 then [] else EncodeRecord(rs[0]) + Encode(rs[1..])
  }

  lemma {:induction false} EncodeAppend(a: seq<Record>, b: seq<Record>)
    ensures Encode(a + b) == Encode(a) + Encode(b)
  {
    if |a| > 0 {
      assert (a + b)[1..] == a[1..] + b;
      EncodeAppend(a[1..], b);
    } else {
      assert a + b == b;
    }
  }

  /** Where each field sits in a frame, read back with the decoder's own
      big-endian helpers: the layout in the module comment. */
  lemma {:induction false} FrameLayout(r: Record)
    ensures var frame, n := EncodeRecord(r), |DescriptionBytes(r)|;
      && |frame| == 54 + n
      && frame[..4] == MAGIC
      && U32FromBytes(frame[4..8]) == (46 + n) % U32_LIMIT
      && U64FromBytes(frame[8..16]) == r.txId
      && frame[16] == TypeToByte(r.txType)
      && U64FromBytes(frame[17..25]) == r.fromUserId
      && U64FromBytes(frame[25..33]) == r.toUserId
      && U64FromBytes(frame[33..41]) == r.amount
      && U64FromBytes(frame[41..49]) == r.timestamp
      && frame[49] == StatusToByte(r.status)
      && U32FromBytes(frame[50..54]) == n % U32_LIMIT
      && frame[54..] == DescriptionBytes(r)
  {
    var frame, n := EncodeRecord(r), |DescriptionBytes(r)|;
    var body := frame[8..];
    BodyLayout(r);
    assert frame == MAGIC + U32ToBytes((46 + n) % U32_LIMIT) + body;
    assert frame[4..8] == U32ToBytes((46 + n) % U32_LIMIT);
    assert frame[8..16] == body[0..8];
    assert frame[17..25] == body[9..17];
    assert frame[25..33] == body[17..25];
    assert frame[33..41] == body[25..33];
    assert frame[41..49] == body[33..41];
    assert frame[50..54] == body[42..46];
  }

  /** The same layout, counted from the start of the body. */
  lemma {:induction false} BodyLayout(r: Record)
    ensures var body, n := EncodeRecord(r)[8..], |DescriptionBytes(r)|;
      && |body| == 46 + n
      && body[0..8] == U64ToBytes(r.txId)
      && body[8] == TypeToByte(r.txType)
      && body[9..17] == U64ToBytes(r.fromUserId)
      && body[17..25] == U64ToBytes(r.toUserId)
      && body[25..33] == U64ToBytes(r.amount)
      && body[33..41] == U64ToBytes(r.timestamp)
      && body[41] == StatusToByte(r.status)
      && body[42..46] == U32ToBytes(n % U32_LIMIT)
      && body[46..] == DescriptionBytes(r)
  {
    var n := |DescriptionBytes(r)|;
    DropHeader(MAGIC, U32ToBytes((MIN_RECORD_SIZE + n) % U32_LIMIT), FixedFields(r), DescriptionBytes(r));
    BodySlices(FixedFields(r), DescriptionBytes(r));
    FixedLayout(r);
  }

  /** A body ends with the description's bytes. */
  lemma BodyDescription(r: Record)
    ensures var body := EncodeRecord(r)[8..];
      |body| == 46 + |DescriptionBytes(r)| && body[46..] == DescriptionBytes(r)
  {
    BodyLayout(r);
  }

  /** Dropping an eight-byte header leaves the body. */
  lemma DropHeader(m: seq<byte>, h: seq<byte>, f: seq<byte>, d: seq<byte>)
    requires |m| == 4 && |h| == 4
    ensures (m + h + f + d)[8..] == f + d
  {
    assert m + h + f + d == (m + h) + (f + d);
  }

  /** The slices of a body at the offsets of the fixed fields are those of
      its first 46 bytes; the rest is the description. */
  lemma BodySlices(f: seq<byte>, d: seq<byte>)
    requires |f| == 46
    ensures var b := f + d;
      && |b| == 46 + |d|
      && b[0..8] == f[0..8] && b[8] == f[8] && b[9..17] == f[9..17]
      && b[17..25] == f[17..25] && b[25..33] == f[25..33] && b[33..41] == f[33..41]
      && b[41] == f[41] && b[42..46] == f[42..46] && b[46..] == d
  {
  }

  /** Offsets of the fixed fields. */
  lemma FixedLayout(r: Record)
    ensures var f, n := FixedFields(r), |DescriptionBytes(r)|;
      && f[0..8] == U64ToBytes(r.txId)
      && f[8] == TypeToByte(r.txType)
      && f[9..17] == U64ToBytes(r.fromUserId)
      && f[17..25] == U64ToBytes(r.toUserId)
      && f[25..33] == U64ToBytes(r.amount)
      && f[33..41] == U64ToBytes(r.timestamp)
      && f[41] == StatusToByte(r.status)
      && f[42..46] == U32ToBytes(n % U32_LIMIT)
  {
    var n := |DescriptionBytes(r)|;
    var f := FixedFields(r);
    var p0, p2, p3 := U64ToBytes(r.txId), U64ToBytes(r.fromUserId), U64ToBytes(r.toUserId);
    var p4, p5, p7 := U64ToBytes(r.amount), U64ToBytes(r.timestamp), U32ToBytes(n % U32_LIMIT);
    var t, s := [TypeToByte(r.txType)], [StatusToByte(r.status)];
    var a1 := p0 + t;
    var a2 := a1 + p2;
    var a3 := a2 + p3;
    var a4 := a3 + p4;
    var a5 := a4 + p5;
    var a6 := a5 + s;
    assert f == a6 + p7;
    assert f[..42] == a6;
    assert a6[..41] == a5;
    assert a5[..33] == a4;
    assert a4[..25] == a3;
    assert a3[..17] == a2;
    assert a2[..9] == a1;
    assert f[42..46] == p7;
    assert f[33..41] == a5[33..41] == p5;
    assert f[25..33] == a4[25..33] == p4;
    assert f[17..25] == a3[17..25] == p3;
    assert f[9..17] == a2[9..17] == p2;
    assert f[0..8] == a1[0..8] == p0;
  }

  // Reading

  /** `u64(body, start, start + 8)`: a big-endian u64, or `RecordTooShort`
      when the body ends first. */
  function ReadU64(body: seq<byte>, start: nat): (r: Result<u64, ParseError>)
    ensures r.Ok? <==> start + 8 <= |body|
    ensures r.Err? ==> r.error == RecordTooShort
  {
    if start + 8 <= |body| then Ok(U64FromBytes(body[start..start + 8])) else Err(RecordTooShort)
  }

  /** `u32(body, start, start + 4)`. */
  function ReadU32(body: seq<byte>, start: nat): (r: Result<u32, ParseError>)
    ensures r.Ok? <==> start + 4 <= |body|
    ensures r.Err? ==> r.error == RecordTooShort
  {
    if start + 4 <= |body| then Ok(U32FromBytes(body[start..start + 4])) else Err(RecordTooShort)
  }

  /** `u8(body, pos)`. */
  function ReadU8(body: seq<byte>, pos: nat): (r: Result<byte, ParseError>)
    ensures r.Ok? <==> pos < |body|
    ensures r.Ok? ==> r.value == body[pos]
    ensures r.Err? ==> r.error == RecordTooShort
  {
    if pos < |body| then Ok(body[pos]) else Err(RecordTooShort)
  }

  /** The declared record_size of the frame starting at `bytes`. */
  function DeclaredSize(bytes: seq<byte>): u32
    requires |bytes| >= HEADER_SIZE
  {
    U32FromBytes(bytes[4..8])
  }

  /** The 46 fixed bytes of a body, decoded: everything but the description. */
  datatype FixedPart = FixedPart(
    txId: u64,
    txType: TransactionType,
    fromUserId: u64,
    toUserId: u64,
    amount: u64,
    timestamp: u64,
    status: TransactionStatus,
    descLen: u32)

  /** The fixed fields of a body, read at their offsets in the reader's
      order; the two codes are decoded as soon as they are read. */
  function ParseFixed(body: seq<byte>): (r: Result<FixedPart, ParseError>)
  {
    var txId :- ReadU64(body, 0);
    var typeByte :- ReadU8(body, 8);
    var txType :- ParseTypeByte(typeByte);
    var fromUserId :- ReadU64(body, 9);
    var toUserId :- ReadU64(body, 17);
    var amount :- ReadU64(body, 25);
    var timestamp :- ReadU64(body, 33);
    var statusByte :- ReadU8(body, 41);
    var status :- ParseStatusByte(statusByte);
    var descLen :- ReadU32(body, 42);
    Ok(FixedPart(txId, txType, fromUserId, toUserId, amount, timestamp, status, descLen))
  }

  /** The record in a frame body: the fixed fields, then the description
      length against record_size, then the description's UTF-8. */
  function ParseBody(body: seq<byte>, recordSize: u32): (r: Result<Record, ParseError>)
    requires recordSize >= MIN_RECORD_SIZE
  {
    var f :- ParseFixed(body);
    if f.descLen != recordSize - MIN_RECORD_SIZE then
      Err(RecordDamaged(f.txId))
    else if |body| < 46 then
      Err(RecordTooShort)
    else
      match Utf8.Decode(body[46..])
      case None => Err(InvalidUtf8)
      case Some(description) =>
        Ok(Record(f.txId, f.txType, f.fromUserId, f.toUserId, f.amount, f.timestamp, f.status, description))
  }

  /** One frame at the head of `bytes` (which holds at least a header):
      the record and the number of bytes the frame occupies. A body shorter
      than record_size is refused as an unexpected end of input. */
  function ReadFrame(bytes: seq<byte>): (r: Result<(Record, nat), ParseError>)
    requires |bytes| >= HEADER_SIZE
    ensures r.Ok? ==> HEADER_SIZE + MIN_RECORD_SIZE <= r.value.1 <= |bytes|
  {
    if bytes[..4] != MAGIC then
      Err(InvalidMagic)
    else
      var recordSize := DeclaredSize(bytes);
      if !(MIN_RECORD_SIZE <= recordSize <= MAX_RECORD_SIZE) then
        Err(UnexpectedRecordSize(recordSize))
      else if |bytes| - HEADER_SIZE < recordSize then
        Err(UnexpectedEof(recordSize, |bytes| - HEADER_SIZE))
      else
        var record :- ParseBody(FrameBody(bytes), recordSize);
        Ok((record, HEADER_SIZE + recordSize))
  }

  /** `read_from`: frames until fewer than eight bytes remain (those are
      dropped silently), or the first error. */
  function Decode(bytes: seq<byte>): (r: Result<seq<Record>, ParseError>)
    ensures |bytes| < HEADER_SIZE ==> r == Ok([])
    ensures |bytes| >= HEADER_SIZE && bytes[..4] != MAGIC ==> r == Err(InvalidMagic)
    ensures |bytes| >= HEADER_SIZE && bytes[..4] == MAGIC
            && !(MIN_RECORD_SIZE <= DeclaredSize(bytes) <= MAX_RECORD_SIZE)
            ==> r == Err(UnexpectedRecordSize(DeclaredSize(bytes)))
    decreases |bytes|
  {
    if |bytes| < HEADER_SIZE then
      Ok([])
    else
      var frame :- ReadFrame(bytes);
      var rest :- Decode(bytes[frame.1..]);
      Ok([frame.0] + rest)
  }

  // Properties of the codec

  /** The fixed fields a writer lays out read back as the record's own. */
  lemma ParseFixedOfEncoded(r: Record)
    ensures ParseFixed(EncodeRecord(r)[8..])
      == Ok(FixedPart(r.txId, r.txType, r.fromUserId, r.toUserId, r.amount, r.timestamp,
                      r.status, |DescriptionBytes(r)| % U32_LIMIT))
  {
    var body := EncodeRecord(r)[8..];
    BodyLayout(r);
    TypeByteRoundTrip(r.txType);
    StatusByteRoundTrip(r.status);
    assert ReadU64(body, 0) == Ok(r.txId);
    assert ReadU64(body, 9) == Ok(r.fromUserId);
    assert ReadU64(body, 17) == Ok(r.toUserId);
    assert ReadU64(body, 25) == Ok(r.amount);
    assert ReadU64(body, 33) == Ok(r.timestamp);
  }

  /** A body whose fixed fields, length and description all check out
      parses to the record they spell. */
  lemma ParseBodyOfParts(body: seq<byte>, recordSize: u32, f: FixedPart, description: string)
    requires recordSize >= MIN_RECORD_SIZE && |body| >= 46
    requires ParseFixed(body) == Ok(f) && f.descLen == recordSize - MIN_RECORD_SIZE
    requires Utf8.Decode(body[46..]) == Some(description)
    ensures ParseBody(body, recordSize)
      == Ok(Record(f.txId, f.txType, f.fromUserId, f.toUserId, f.amount, f.timestamp, f.status, description))
  {
  }

  /** A writer's body parses back to its record when the description fits. */
  lemma ParseBodyOfEncoded(r: Record)
    requires FitsFrame(r)
    ensures ParseBody(EncodeRecord(r)[8..], 46 + |DescriptionBytes(r)|) == Ok(r)
  {
    BodyDescription(r);
    ParseFixedOfEncoded(r);
    BodyOfRecord(EncodeRecord(r)[8..], r);
  }

  /** A body laid out as the writer lays out `r` parses back to `r`. */
  lemma BodyOfRecord(body: seq<byte>, r: Record)
    requires FitsFrame(r)
    requires |body| == 46 + |DescriptionBytes(r)| && body[46..] == DescriptionBytes(r)
    requires ParseFixed(body)
      == Ok(FixedPart(r.txId, r.txType, r.fromUserId, r.toUserId, r.amount, r.timestamp,
                      r.status, |DescriptionBytes(r)| % U32_LIMIT))
    ensures ParseBody(body, 46 + |DescriptionBytes(r)|) == Ok(r)
  {
    var n := |DescriptionBytes(r)|;
    SmallLength(n);
    var f := FixedPart(r.txId, r.txType, r.fromUserId, r.toUserId, r.amount, r.timestamp, r.status, n);
    Utf8.DecodeEncode(r.description);
    ParseBodyOfParts(body, 46 + n, f, r.description);
  }

  lemma SmallLength(n: nat)
    requires n <= MAX_RECORD_SIZE
    ensures n % U32_LIMIT == n
  {
  }

  /** The header of a writer's frame, whatever follows it: the magic, and
      46 plus the description length, cast to 32 bits. */
  lemma EncodedHeader(r: Record, tail: seq<byte>)
    ensures var bytes, n := EncodeRecord(r) + tail, |DescriptionBytes(r)|;
      && |bytes| >= HEADER_SIZE + MIN_RECORD_SIZE + n
      && bytes[..4] == MAGIC
      && DeclaredSize(bytes) == (MIN_RECORD_SIZE + n) % U32_LIMIT
      && (MIN_RECORD_SIZE + n < U32_LIMIT ==> DeclaredSize(bytes) == MIN_RECORD_SIZE + n)
  {
    FrameLayout(r);
    HeaderSlices(EncodeRecord(r), tail);
  }

  /** Bytes after a frame leave its header alone. */
  lemma HeaderSlices(frame: seq<byte>, tail: seq<byte>)
    requires |frame| >= HEADER_SIZE
    ensures var bytes := frame + tail;
      |bytes| == |frame| + |tail| && bytes[..4] == frame[..4] && bytes[4..8] == frame[4..8]
  {
  }

  /** When the description fits, the body that header announces is the
      writer's body. */
  lemma EncodedBody(r: Record, tail: seq<byte>)
    requires FitsFrame(r)
    ensures var bytes := EncodeRecord(r) + tail;
      && DeclaredSize(bytes) == MIN_RECORD_SIZE + |DescriptionBytes(r)|
      && FrameBody(bytes) == EncodeRecord(r)[8..]
  {
    var frame := EncodeRecord(r);
    EncodedHeader(r, tail);
    SliceOfSlice(frame + tail, 0, |frame|, 8, |frame|);
    DropPrefix(frame, tail);
  }

  /** A frame whose header is sound and whose body parses is read as that
      record, occupying the header and the body. */
  lemma ReadFrameOfParts(bytes: seq<byte>, record: Record)
    requires |bytes| >= HEADER_SIZE && bytes[..4] == MAGIC
    requires MIN_RECORD_SIZE <= DeclaredSize(bytes) <= MAX_RECORD_SIZE
    requires |bytes| >= HEADER_SIZE + DeclaredSize(bytes)
    requires ParseBody(FrameBody(bytes), DeclaredSize(bytes)) == Ok(record)
    ensures ReadFrame(bytes) == Ok((record, HEADER_SIZE + DeclaredSize(bytes)))
  {
  }

  /** A writer's frame, whatever follows it, reads back as its record and
      its own length when the description fits. */
  lemma ReadFrameOfEncoded(r: Record, tail: seq<byte>)
    requires FitsFrame(r)
    ensures ReadFrame(EncodeRecord(r) + tail) == Ok((r, |EncodeRecord(r)|))
  {
    EncodedHeader(r, tail);
    EncodedBody(r, tail);
    ParseBodyOfEncoded(r);
    ReadFrameOfParts(EncodeRecord(r) + tail, r);
  }

  /** After a frame is read, reading goes on with the bytes after it and
      puts the frame's record in front of what they give. */
  lemma DecodeAfterFrameOk(bytes: seq<byte>, record: Record, size: nat, more: seq<Record>)
    requires |bytes| >= HEADER_SIZE && ReadFrame(bytes) == Ok((record, size))
    requires size <= |bytes| && Decode(bytes[size..]) == Ok(more)
    ensures Decode(bytes) == Ok([record] + more)
  {
  }

  /** ... and stops with the first failure in the bytes after it. */
  lemma DecodeAfterFrameErr(bytes: seq<byte>, record: Record, size: nat, e: ParseError)
    requires |bytes| >= HEADER_SIZE && ReadFrame(bytes) == Ok((record, size))
    requires size <= |bytes| && Decode(bytes[size..]) == Err(e)
    ensures Decode(bytes) == Err(e)
  {
  }

  /** The first frame of the writer's output and the frames after it. */
  lemma EncodeCons(rs: seq<Record>, rest: seq<byte>)
    requires |rs| > 0
    ensures Encode(rs) + rest == EncodeRecord(rs[0]) + (Encode(rs[1..]) + rest)
  {
    Associative(EncodeRecord(rs[0]), Encode(rs[1..]), rest);
  }

  lemma EncodeFront(r: Record, rs: seq<Record>)
    ensures Encode([r] + rs) == EncodeRecord(r) + Encode(rs)
  {
    assert ([r] + rs)[1..] == rs;
  }

  /** One frame of a writer's output read, then the rest. */
  lemma FrameStepOk(bytes: seq<byte>, frame: seq<byte>, tail: seq<byte>, record: Record, more: seq<Record>)
    requires bytes == frame + tail && |bytes| >= HEADER_SIZE
    requires ReadFrame(bytes) == Ok((record, |frame|))
    requires Decode(tail) == Ok(more)
    ensures Decode(bytes) == Ok([record] + more)
  {
    DropPrefix(frame, tail);
    DecodeAfterFrameOk(bytes, record, |frame|, more);
  }

  lemma FrameStepErr(bytes: seq<byte>, frame: seq<byte>, tail: seq<byte>, record: Record, e: ParseError)
    requires bytes == frame + tail && |bytes| >= HEADER_SIZE
    requires ReadFrame(bytes) == Ok((record, |frame|))
    requires Decode(tail) == Err(e)
    ensures Decode(bytes) == Err(e)
  {
    DropPrefix(frame, tail);
    DecodeAfterFrameErr(bytes, record, |frame|, e);
  }

  /** Frames a writer laid out are read one after the other, and reading
      then goes on with whatever follows them. */
  lemma {:induction false} DecodeEncodedPrefix(rs: seq<Record>, rest: seq<byte>, more: seq<Record>)
    requires forall i :: 0 <= i < |rs| ==> FitsFrame(rs[i])
    requires Decode(rest) == Ok(more)
    ensures Decode(Encode(rs) + rest) == Ok(rs + more)
  {
    if |rs| == 0 {
      assert Encode(rs) + rest == rest;
      EmptyAppend(rs, more);
    } else {
      var frame, tail := EncodeRecord(rs[0]), Encode(rs[1..]) + rest;
      EncodeCons(rs, rest);
      ReadFrameOfEncoded(rs[0], tail);
      DecodeEncodedPrefix(rs[1..], rest, more);
      FrameStepOk(frame + tail, frame, tail, rs[0], rs[1..] + more);
      ConsAppend(rs, more);
    }
  }

  /** Frames a writer laid out are read past, and a failure after them is
      the failure of the whole read. */
  lemma {:induction false} DecodeEncodedPrefixErr(rs: seq<Record>, rest: seq<byte>, e: ParseError)
    requires forall i :: 0 <= i < |rs| ==> FitsFrame(rs[i])
    requires Decode(rest) == Err(e)
    ensures Decode(Encode(rs) + rest) == Err(e)
  {
    if |rs| == 0 {
      assert Encode(rs) + rest == rest;
    } else {
      var frame, tail := EncodeRecord(rs[0]), Encode(rs[1..]) + rest;
      EncodeCons(rs, rest);
      ReadFrameOfEncoded(rs[0], tail);
      DecodeEncodedPrefixErr(rs[1..], rest, e);
      FrameStepErr(frame + tail, frame, tail, rs[0], e);
    }
  }

  /** Round trip: reading what `write_to` wrote gives back the records, in
      order, when every description fits in a frame. */
  lemma DecodeEncode(rs: seq<Record>)
    requires forall i :: 0 <= i < |rs| ==> FitsFrame(rs[i])
    ensures Decode(Encode(rs)) == Ok(rs)
  {
    DecodeEncodedPrefix(rs, [], []);
    Seqs.AppendEmpty(Encode(rs));
    Seqs.AppendEmpty(rs);
  }

  /** A frame whose description is too long for the cap (but short of
      the 32-bit wrap) declares a record_size the reader refuses. */
  lemma LongFrameRejected(r: Record, tail: seq<byte>)
    requires MAX_RECORD_SIZE - MIN_RECORD_SIZE < |DescriptionBytes(r)| < U32_LIMIT - MIN_RECORD_SIZE
    ensures Decode(EncodeRecord(r) + tail) == Err(UnexpectedRecordSize(46 + |DescriptionBytes(r)|))
  {
    EncodedHeader(r, tail);
  }

  /** Such a description is written without complaint, and reading stops
      at its frame, after the records before it were read, with the
      record_size it declares. */
  lemma LongDescriptionRejected(before: seq<Record>, r: Record, after: seq<Record>)
    requires forall i :: 0 <= i < |before| ==> FitsFrame(before[i])
    requires MAX_RECORD_SIZE - MIN_RECORD_SIZE < |DescriptionBytes(r)| < U32_LIMIT - MIN_RECORD_SIZE
    ensures Decode(Encode(before + [r] + after)) == Err(UnexpectedRecordSize(46 + |DescriptionBytes(r)|))
  {
    var rest := Encode([r] + after);
    Associative(before, [r], after);
    EncodeAppend(before, [r] + after);
    EncodeFront(r, after);
    LongFrameRejected(r, Encode(after));
    DecodeEncodedPrefixErr(before, rest, UnexpectedRecordSize(46 + |DescriptionBytes(r)|));
  }

  /** A frame with sound magic and size whose body is shorter than the
      declared record_size is refused, saying how much was needed and how
      much was there. */
  lemma ShortBodyRejected(bytes: seq<byte>)
    requires |bytes| >= HEADER_SIZE && bytes[..4] == MAGIC
    requires MIN_RECORD_SIZE <= DeclaredSize(bytes) <= MAX_RECORD_SIZE
    requires |bytes| - HEADER_SIZE < DeclaredSize(bytes)
    ensures Decode(bytes) == Err(UnexpectedEof(DeclaredSize(bytes), |bytes| - HEADER_SIZE))
  {
  }

  /** The body of a well-formed frame header: the record_size bytes after
      the header. */
  function FrameBody(bytes: seq<byte>): (body: seq<byte>)
    requires |bytes| >= HEADER_SIZE && |bytes| >= HEADER_SIZE + DeclaredSize(bytes)
    ensures |body| == DeclaredSize(bytes)
  {
    bytes[HEADER_SIZE..HEADER_SIZE + DeclaredSize(bytes)]
  }

  /** Offsets in a frame body are the frame's offsets less the header. */
  lemma FrameBodyFields(bytes: seq<byte>)
    requires |bytes| >= HEADER_SIZE && |bytes| >= HEADER_SIZE + DeclaredSize(bytes)
    requires DeclaredSize(bytes) >= MIN_RECORD_SIZE
    ensures FrameBody(bytes)[8] == bytes[16] && FrameBody(bytes)[41] == bytes[49]
    ensures FrameBody(bytes)[0..8] == bytes[8..16]
    ensures FrameBody(bytes)[42..46] == bytes[50..54]
  {
    SliceOfSlice(bytes, HEADER_SIZE, HEADER_SIZE + DeclaredSize(bytes), 0, 8);
    SliceOfSlice(bytes, HEADER_SIZE, HEADER_SIZE + DeclaredSize(bytes), 42, 46);
  }

  /** A frame with sound magic and size and a complete body whose parse
      fails stops reading with that failure. */
  lemma BodyErrorStopsDecode(bytes: seq<byte>)
    requires |bytes| >= HEADER_SIZE && bytes[..4] == MAGIC
    requires MIN_RECORD_SIZE <= DeclaredSize(bytes) <= MAX_RECORD_SIZE
    requires |bytes| >= HEADER_SIZE + DeclaredSize(bytes)
    requires ParseBody(FrameBody(bytes), DeclaredSize(bytes)).Err?
    ensures Decode(bytes) == Err(ParseBody(FrameBody(bytes), DeclaredSize(bytes)).error)
  {
  }

  /** An unknown type code in a body is refused with that byte. */
  lemma BadTypeBody(body: seq<byte>, recordSize: u32)
    requires recordSize >= MIN_RECORD_SIZE && |body| >= 46 && body[8] >= 3
    ensures ParseBody(body, recordSize) == Err(TransactionTypeError(UnknownTransactionTypeByte(body[8])))
  {
  }

  /** An unknown type code at offset 16 is refused with that byte. */
  lemma BadTypeByteRejected(bytes: seq<byte>)
    requires |bytes| >= HEADER_SIZE && bytes[..4] == MAGIC
    requires MIN_RECORD_SIZE <= DeclaredSize(bytes) <= MAX_RECORD_SIZE
    requires |bytes| >= HEADER_SIZE + DeclaredSize(bytes)
    requires bytes[16] >= 3
    ensures Decode(bytes) == Err(TransactionTypeError(UnknownTransactionTypeByte(bytes[16])))
  {
    FrameBodyFields(bytes);
    BadTypeBody(FrameBody(bytes), DeclaredSize(bytes));
    BodyErrorStopsDecode(bytes);
  }

  /** With a known type code, an unknown status code in a body is refused
      with that byte. */
  lemma BadStatusBody(body: seq<byte>, recordSize: u32)
    requires recordSize >= MIN_RECORD_SIZE && |body| >= 46 && body[8] < 3 && body[41] >= 3
    ensures ParseBody(body, recordSize) == Err(TransactionStatusError(UnknownTransactionStatusByte(body[41])))
  {
    assert ParseTypeByte(body[8]).Ok?;
  }

  /** With a known type code, an unknown status code at offset 49 is
      refused with that byte: the type is checked first. */
  lemma BadStatusByteRejected(bytes: seq<byte>)
    requires |bytes| >= HEADER_SIZE && bytes[..4] == MAGIC
    requires MIN_RECORD_SIZE <= DeclaredSize(bytes) <= MAX_RECORD_SIZE
    requires |bytes| >= HEADER_SIZE + DeclaredSize(bytes)
    requires bytes[16] < 3 && bytes[49] >= 3
    ensures Decode(bytes) == Err(TransactionStatusError(UnknownTransactionStatusByte(bytes[49])))
  {
    FrameBodyFields(bytes);
    BadStatusBody(FrameBody(bytes), DeclaredSize(bytes));
    BodyErrorStopsDecode(bytes);
  }

  /** Once both codes are known, the fixed fields are read as they stand. */
  lemma ParseFixedOfKnownCodes(body: seq<byte>)
    requires |body| >= 46 && body[8] < 3 && body[41] < 3
    ensures ParseFixed(body).Ok?
    ensures ParseFixed(body).value.txId == U64FromBytes(body[0..8])
    ensures ParseFixed(body).value.descLen == U32FromBytes(body[42..46])
  {
    assert ParseTypeByte(body[8]).Ok?;
    assert ParseStatusByte(body[41]).Ok?;
  }

  /** With both codes known, a description length other than
      record_size - 46 is refused as damage to the body's tx_id. */
  lemma DamagedBody(body: seq<byte>, recordSize: u32)
    requires recordSize >= MIN_RECORD_SIZE && |body| >= 46 && body[8] < 3 && body[41] < 3
    requires U32FromBytes(body[42..46]) != recordSize - MIN_RECORD_SIZE
    ensures ParseBody(body, recordSize) == Err(RecordDamaged(U64FromBytes(body[0..8])))
  {
    ParseFixedOfKnownCodes(body);
  }

  /** With both codes known, a description length (offset 50) other than
      record_size - 46 is refused as damage to the record with that frame's
      tx_id (offset 8). */
  lemma DamagedLengthRejected(bytes: seq<byte>)
    requires |bytes| >= HEADER_SIZE && bytes[..4] == MAGIC
    requires MIN_RECORD_SIZE <= DeclaredSize(bytes) <= MAX_RECORD_SIZE
    requires |bytes| >= HEADER_SIZE + DeclaredSize(bytes)
    requires bytes[16] < 3 && bytes[49] < 3
    requires U32FromBytes(bytes[50..54]) != DeclaredSize(bytes) - MIN_RECORD_SIZE
    ensures Decode(bytes) == Err(RecordDamaged(U64FromBytes(bytes[8..16])))
  {
    FrameBodyFields(bytes);
    DamagedBody(FrameBody(bytes), DeclaredSize(bytes));
    BodyErrorStopsDecode(bytes);
  }

  /** With both codes known and the length in agreement, a description
      that is not UTF-8 fails with `InvalidUtf8`. */
  lemma InvalidDescriptionBody(body: seq<byte>, recordSize: u32)
    requires recordSize >= MIN_RECORD_SIZE && |body| >= 46 && body[8] < 3 && body[41] < 3
    requires U32FromBytes(body[42..46]) == recordSize - MIN_RECORD_SIZE
    requires Utf8.Decode(body[46..]).None?
    ensures ParseBody(body, recordSize) == Err(InvalidUtf8)
  {
    ParseFixedOfKnownCodes(body);
  }

  /** The same for a frame read from input: its description must be UTF-8. */
  lemma InvalidDescriptionRejected(bytes: seq<byte>)
    requires |bytes| >= HEADER_SIZE && bytes[..4] == MAGIC
    requires MIN_RECORD_SIZE <= DeclaredSize(bytes) <= MAX_RECORD_SIZE
    requires |bytes| >= HEADER_SIZE + DeclaredSize(bytes)
    requires bytes[16] < 3 && bytes[49] < 3
    requires U32FromBytes(bytes[50..54]) == DeclaredSize(bytes) - MIN_RECORD_SIZE
    requires Utf8.Decode(FrameBody(bytes)[46..]).None?
    ensures Decode(bytes) == Err(InvalidUtf8)
  {
    FrameBodyFields(bytes);
    InvalidDescriptionBody(FrameBody(bytes), DeclaredSize(bytes));
    BodyErrorStopsDecode(bytes);
  }

  // The reader as written

  /** `k` zero bytes: what the body buffer holds before it is read into. */
  function Zeros(k: nat): (z: seq<byte>)
    ensures |z| == k && forall i :: 0 <= i < k ==> z[i] == 0
  {
    seq(k, _ => 0)
  }

  /** `read_from` as written: the outcome of reading the body is dropped,
      so a body cut short by the end of input is parsed from the bytes
      that were there followed by the zeros the buffer was created with;
      the next header read then meets the end of input and reading stops. */
  function DecodeAsWritten(bytes: seq<byte>): (r: Result<seq<Record>, ParseError>)
    ensures |bytes| < HEADER_SIZE ==> r == Ok([])
    ensures |bytes| >= HEADER_SIZE && bytes[..4] != MAGIC ==> r == Err(InvalidMagic)
    ensures |bytes| >= HEADER_SIZE && bytes[..4] == MAGIC
            && !(MIN_RECORD_SIZE <= DeclaredSize(bytes) <= MAX_RECORD_SIZE)
            ==> r == Err(UnexpectedRecordSize(DeclaredSize(bytes)))
    decreases |bytes|
  {
    if |bytes| < HEADER_SIZE then
      Ok([])
    else if bytes[..4] != MAGIC then
      Err(InvalidMagic)
    else
      var recordSize := DeclaredSize(bytes);
      if !(MIN_RECORD_SIZE <= recordSize <= MAX_RECORD_SIZE) then
        Err(UnexpectedRecordSize(recordSize))
      else if |bytes| - HEADER_SIZE < recordSize then
        var record :- ParseBody(bytes[HEADER_SIZE..] + Zeros(recordSize - (|bytes| - HEADER_SIZE)), recordSize);
        Ok([record])
      else
        var record :- ParseBody(FrameBody(bytes), recordSize);
        var rest :- DecodeAsWritten(bytes[HEADER_SIZE + recordSize..]);
        Ok([record] + rest)
  }

  /** The two readers agree on every input except those where the
      corrected one reports a body cut short. */
  lemma {:induction false} DecodeAsWrittenAgrees(bytes: seq<byte>)
    requires Decode(bytes).Ok? || !Decode(bytes).error.UnexpectedEof?
    ensures DecodeAsWritten(bytes) == Decode(bytes)
    decreases |bytes|
  {
    if WholeFrame(bytes) {
      NoEofInTail(bytes);
      DecodeAsWrittenAgrees(AfterFrame(bytes));
      AgreeAfterFrame(bytes);
    } else {
      AgreeWithoutFrame(bytes);
    }
  }

  /** A frame at the head of `bytes` that both readers parse in full. */
  predicate WholeFrame(bytes: seq<byte>) {
    && |bytes| >= HEADER_SIZE && bytes[..4] == MAGIC
    && MIN_RECORD_SIZE <= DeclaredSize(bytes) <= MAX_RECORD_SIZE
    && |bytes| - HEADER_SIZE >= DeclaredSize(bytes)
    && ParseBody(FrameBody(bytes), DeclaredSize(bytes)).Ok?
  }

  /** `r`'s records after `record`, or `r`'s error. */
  function Prepend(record: Record, r: Result<seq<Record>, ParseError>): (p: Result<seq<Record>, ParseError>)
    ensures p.Ok? <==> r.Ok?
    ensures p.Err? ==> p.error == r.error
  {
    var rest :- r;
    Ok([record] + rest)
  }

  /** The record in the whole frame at the head of `bytes`. */
  function FrameRecord(bytes: seq<byte>): Record
    requires WholeFrame(bytes)
  {
    ParseBody(FrameBody(bytes), DeclaredSize(bytes)).value
  }

  /** What follows the whole frame at the head of `bytes`. */
  function AfterFrame(bytes: seq<byte>): seq<byte>
    requires WholeFrame(bytes)
  {
    bytes[HEADER_SIZE + DeclaredSize(bytes)..]
  }

  lemma DecodeWhole(bytes: seq<byte>)
    requires WholeFrame(bytes)
    ensures Decode(bytes) == Prepend(FrameRecord(bytes), Decode(AfterFrame(bytes)))
  {
    ReadFrameWhole(bytes);
    DecodeStep(bytes, FrameRecord(bytes), HEADER_SIZE + DeclaredSize(bytes));
  }

  /** A frame read at the head of `bytes` is followed by what the rest
      decodes to. */
  lemma DecodeStep(bytes: seq<byte>, record: Record, size: nat)
    requires |bytes| >= HEADER_SIZE && ReadFrame(bytes) == Ok((record, size))
    ensures Decode(bytes) == Prepend(record, Decode(bytes[size..]))
  {
  }

  lemma ReadFrameWhole(bytes: seq<byte>)
    requires WholeFrame(bytes)
    ensures ReadFrame(bytes) == Ok((FrameRecord(bytes), HEADER_SIZE + DeclaredSize(bytes)))
  {
  }

  lemma DecodeAsWrittenWhole(bytes: seq<byte>)
    requires WholeFrame(bytes)
    ensures DecodeAsWritten(bytes) == Prepend(FrameRecord(bytes), DecodeAsWritten(AfterFrame(bytes)))
  {
  }

  lemma NoEofInTail(bytes: seq<byte>)
    requires WholeFrame(bytes)
    requires Decode(bytes).Ok? || !Decode(bytes).error.UnexpectedEof?
    ensures Decode(AfterFrame(bytes)).Ok? || !Decode(AfterFrame(bytes)).error.UnexpectedEof?
  {
    DecodeWhole(bytes);
  }

  lemma AgreeAfterFrame(bytes: seq<byte>)
    requires WholeFrame(bytes)
    requires DecodeAsWritten(AfterFrame(bytes)) == Decode(AfterFrame(bytes))
    ensures DecodeAsWritten(bytes) == Decode(bytes)
  {
    DecodeWhole(bytes);
    DecodeAsWrittenWhole(bytes);
  }

  lemma AgreeWithoutFrame(bytes: seq<byte>)
    requires !WholeFrame(bytes)
    requires Decode(bytes).Ok? || !Decode(bytes).error.UnexpectedEof?
    ensures DecodeAsWritten(bytes) == Decode(bytes)
  {
  }

  /** Zero bytes read as a big-endian number are zero. */
  lemma {:induction false} FromBigEndianZeros(bs: seq<byte>)
    requires forall i :: 0 <= i < |bs| ==> bs[i] == 0
    ensures FromBigEndian(bs) == 0
  {
    if |bs| > 0 {
      FromBigEndianZeros(bs[..|bs| - 1]);
    }
  }

  /** The eight-byte input: a sound header declaring a 46-byte body, and
      no body at all. */
  const BareHeader: seq<byte> := MAGIC + [0, 0, 0, 46]

  /** The header's declared size is 46. */
  lemma BareHeaderSize()
    ensures |BareHeader| == HEADER_SIZE && BareHeader[..4] == MAGIC
    ensures DeclaredSize(BareHeader) == 46
  {
    var size: seq<byte> := [0, 0, 0, 46];
    assert BareHeader[4..8] == size;
    assert size[..3] == [0, 0, 0];
    FromBigEndianZeros(size[..3]);
  }

  /** As written, a header with no body after it reads as one record whose
      every field is zero: tx_id 0, a deposit from user 0 to user 0 of
      amount 0 at time 0, successful, with an empty description. */
  lemma BareHeaderAsWritten()
    ensures DecodeAsWritten(BareHeader) == Ok([Record(0, Deposit, 0, 0, 0, 0, Success, "")])
  {
    BareHeaderSize();
    var body := BareHeader[HEADER_SIZE..] + Zeros(46);
    assert body == Zeros(46);
    FromBigEndianZeros(body[0..8]);
    FromBigEndianZeros(body[9..17]);
    FromBigEndianZeros(body[17..25]);
    FromBigEndianZeros(body[25..33]);
    FromBigEndianZeros(body[33..41]);
    FromBigEndianZeros(body[42..46]);
    assert body[46..] == [];
    assert ParseFixed(body) == Ok(FixedPart(0, Deposit, 0, 0, 0, 0, Success, 0));
  }

  /** The corrected reader refuses the same input: 46 bytes needed, none
      there. */
  lemma BareHeaderRejected()
    ensures Decode(BareHeader) == Err(UnexpectedEof(46, 0))
  {
    BareHeaderSize();
  }
}
