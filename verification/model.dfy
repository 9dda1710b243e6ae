/** The transaction record shared by all three codecs, its two closed
    enumerations with their byte and string forms, and the draft the text
    codec fills one key at a time. */
module Model {
  import opened Bytes
  import opened Results
  import opened Errors

  datatype TransactionType = Deposit | Withdrawal | Transfer

  datatype TransactionStatus = Success | Failure | Pending

  datatype Record = Record(
    txId: u64,
    txType: TransactionType,
    fromUserId: u64,
    toUserId: u64,
    amount: u64,
    timestamp: u64,
    status: TransactionStatus,
    description: string)

  // Transaction type

  function TypeToByte(t: TransactionType): (b: byte)
    ensures b < 3
  {
    match t
    case Deposit => 0
    case Transfer => 1
    case Withdrawal => 2
  }

  /** The type a wire byte denotes; any byte other than the three codes is
      refused with an error that carries it. */
  function TypeFromByte(b: byte): (r: Result<TransactionType, ParseTransactionTypeError>)
    ensures r.Ok? <==> b < 3
    ensures r.Ok? ==> TypeToByte(r.value) == b
    ensures r.Err? ==> r.error == UnknownTransactionTypeByte(b)
  {
    match b
    case 0 => Ok(Deposit)
    case 1 => Ok(Transfer)
    case 2 => Ok(Withdrawal)
    case _ => Err(UnknownTransactionTypeByte(b))
  }

  lemma TypeByteRoundTrip(t: TransactionType)
    ensures TypeFromByte(TypeToByte(t)) == Ok(t)
  {
  }

  function TypeToStr(t: TransactionType): (s: string)
    ensures s in {"DEPOSIT", "TRANSFER", "WITHDRAWAL"}
  {
    match t
    case Deposit => "DEPOSIT"
    case Transfer => "TRANSFER"
    case Withdrawal => "WITHDRAWAL"
  }

  /** The type an upper-case token names; any other text is refused with
      an error that carries it. */
  function TypeParse(s: string): (r: Result<TransactionType, ParseTransactionTypeError>)
    ensures r.Ok? <==> s in {"DEPOSIT", "TRANSFER", "WITHDRAWAL"}
    ensures r.Ok? ==> TypeToStr(r.value) == s
    ensures r.Err? ==> r.error == UnknownTransactionTypeString(s)
  {
    if s == "DEPOSIT" then Ok(Deposit)
    else if s == "TRANSFER" then Ok(Transfer)
    else if s == "WITHDRAWAL" then Ok(Withdrawal)
    else Err(UnknownTransactionTypeString(s))
  }

  lemma TypeStrRoundTrip(t: TransactionType)
    ensures TypeParse(TypeToStr(t)) == Ok(t)
  {
  }

  // Transaction status

  function StatusToByte(s: TransactionStatus): (b: byte)
    ensures b < 3
  {
    match s
    case Success => 0
    case Failure => 1
    case Pending => 2
  }

  function StatusFromByte(b: byte): (r: Result<TransactionStatus, ParseTransactionStatusError>)
    ensures r.Ok? <==> b < 3
    ensures r.Ok? ==> StatusToByte(r.value) == b
    ensures r.Err? ==> r.error == UnknownTransactionStatusByte(b)
  {
    match b
    case 0 => Ok(Success)
    case 1 => Ok(Failure)
    case 2 => Ok(Pending)
    case _ => Err(UnknownTransactionStatusByte(b))
  }

  lemma StatusByteRoundTrip(s: TransactionStatus)
    ensures StatusFromByte(StatusToByte(s)) == Ok(s)
  {
  }

  function StatusToStr(s: TransactionStatus): (t: string)
    ensures t in {"SUCCESS", "FAILURE", "PENDING"}
  {
    match s
    case Success => "SUCCESS"
    case Failure => "FAILURE"
    case Pending => "PENDING"
  }

  function StatusParse(t: string): (r: Result<TransactionStatus, ParseTransactionStatusError>)
    ensures r.Ok? <==> t in {"SUCCESS", "FAILURE", "PENDING"}
    ensures r.Ok? ==> StatusToStr(r.value) == t
    ensures r.Err? ==> r.error == UnknownTransactionStatusString(t)
  {
    if t == "SUCCESS" then Ok(Success)
    else if t == "FAILURE" then Ok(Failure)
    else if t == "PENDING" then Ok(Pending)
    else Err(UnknownTransactionStatusString(t))
  }

  lemma StatusStrRoundTrip(s: TransactionStatus)
    ensures StatusParse(StatusToStr(s)) == Ok(s)
  {
  }

  /** The tokens are upper-case words: no digit, separator or whitespace
      occurs in them. */
  lemma TokensAreWords(t: TransactionType, s: TransactionStatus, c: char)
    requires !('A' <= c <= 'Z')
    ensures c !in TypeToStr(t) && c !in StatusToStr(s)
  {
    var a, b := TypeToStr(t), StatusToStr(s);
    assert forall i :: 0 <= i < |a| ==> 'A' <= a[i] <= 'Z';
    assert forall i :: 0 <= i < |b| ==> 'A' <= b[i] <= 'Z';
  }

  // The codecs report enumeration failures wrapped in `ParseError`.

  function ParseTypeByte(b: byte): Result<TransactionType, ParseError> {
    TypeFromByte(b).MapError(e => TransactionTypeError(e))
  }

  function ParseStatusByte(b: byte): Result<TransactionStatus, ParseError> {
    StatusFromByte(b).MapError(e => TransactionStatusError(e))
  }

  function ParseTypeName(s: string): Result<TransactionType, ParseError> {
    TypeParse(s).MapError(e => TransactionTypeError(e))
  }

  function ParseStatusName(s: string): Result<TransactionStatus, ParseError> {
    StatusParse(s).MapError(e => TransactionStatusError(e))
  }

  // The text codec's draft

  datatype TextRecordDraft = TextRecordDraft(
    txId: Option<u64>,
    txType: Option<TransactionType>,
    fromUserId: Option<u64>,
    toUserId: Option<u64>,
    amount: Option<u64>,
    timestamp: Option<u64>,
    status: Option<TransactionStatus>,
    description: Option<string>)

  const EmptyDraft := TextRecordDraft(None, None, None, None, None, None, None, None)

  predicate IsEmpty(d: TextRecordDraft) {
    && d.txId.None?
    && d.txType.None?
    && d.fromUserId.None?
    && d.toUserId.None?
    && d.amount.None?
    && d.timestamp.None?
    && d.status.None?
    && d.description.None?
  }

  /** A draft is empty exactly when it is the draft with no field set. */
  lemma IsEmptyIffBlank(d: TextRecordDraft)
    ensures IsEmpty(d) <==> d == EmptyDraft
  {
  }

  /** Clearing every field: the draft is empty afterwards, whatever it held. */
  function Reset(d: TextRecordDraft): (r: TextRecordDraft)
    ensures IsEmpty(r)
  {
    TextRecordDraft(None, None, None, None, None, None, None, None)
  }

  /** The draft holding every field of `r`. */
  function DraftOf(r: Record): TextRecordDraft {
    TextRecordDraft(Some(r.txId), Some(r.txType), Some(r.fromUserId), Some(r.toUserId),
                    Some(r.amount), Some(r.timestamp), Some(r.status), Some(r.description))
  }

  /** The names `from_draft` reports, in the order it checks the fields. */
  const CheckOrder: seq<string> :=
    ["tx_id", "from_user_id", "to_user_id", "amount", "tx_type", "timestamp", "status", "description"]

  /** Whether the `i`-th field in check order is set. */
  predicate HasField(d: TextRecordDraft, i: nat)
    requires i < 8
  {
    match i
    case 0 => d.txId.Some?
    case 1 => d.fromUserId.Some?
    case 2 => d.toUserId.Some?
    case 3 => d.amount.Some?
    case 4 => d.txType.Some?
    case 5 => d.timestamp.Some?
    case 6 => d.status.Some?
    case _ => d.description.Some?
  }

  predicate IsComplete(d: TextRecordDraft) {
    forall i: nat :: i < 8 ==> HasField(d, i)
  }

  function Need<T>(field: Option<T>, name: string): Result<T, ParseError> {
    match field
    case Some(v) => Ok(v)
    case None => Err(MissingField(name))
  }

  /** `Record::from_draft`: the record when all eight fields are set, else
      the first missing field in check order. */
  function FromDraft(d: TextRecordDraft): (r: Result<Record, ParseError>)
    ensures r.Ok? ==> DraftOf(r.value) == d
  {
    var txId :- Need(d.txId, "tx_id");
    var fromUserId :- Need(d.fromUserId, "from_user_id");
    var toUserId :- Need(d.toUserId, "to_user_id");
    var amount :- Need(d.amount, "amount");
    var txType :- Need(d.txType, "tx_type");
    var timestamp :- Need(d.timestamp, "timestamp");
    var status :- Need(d.status, "status");
    var description :- Need(d.description, "description");
    Ok(Record(txId, txType, fromUserId, toUserId, amount, timestamp, status, description))
  }

  /** `i` is the position, in check order, of the first field `d` lacks. */
  predicate IsFirstMissing(d: TextRecordDraft, i: nat)
    requires i < 8
  {
    !HasField(d, i) && forall j: nat :: j < i ==> HasField(d, j)
  }

  /** `from_draft` succeeds exactly on complete drafts, and otherwise names
      the first field it lacks in check order. */
  lemma FromDraftChecksInOrder(d: TextRecordDraft)
    ensures FromDraft(d).Ok? <==> IsComplete(d)
    ensures FromDraft(d).Err? ==>
      exists i: nat :: i < 8 && IsFirstMissing(d, i) && FromDraft(d).error == MissingField(CheckOrder[i])
  {
    var i: nat;
    if d.txId.None? {
      i := 0;
    } else if d.fromUserId.None? {
      i := 1;
    } else if d.toUserId.None? {
      i := 2;
    } else if d.amount.None? {
      i := 3;
    } else if d.txType.None? {
      i := 4;
    } else if d.timestamp.None? {
      i := 5;
    } else if d.status.None? {
      i := 6;
    } else if d.description.None? {
      i := 7;
    } else {
      assert forall j: nat :: j < 8 ==> HasField(d, j);
      return;
    }
    assert IsFirstMissing(d, i);
    assert !IsComplete(d);
  }

  /** A complete draft gives back the record it was filled from. */
  lemma FromDraftOf(r: Record)
    ensures FromDraft(DraftOf(r)) == Ok(r)
  {
  }
}
