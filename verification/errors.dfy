/** The closed taxonomy of failures every codec reports. The payloads of
    the I/O and UTF-8 failures are left abstract. */
module Errors {
  import opened Bytes

  datatype ParseTransactionTypeError =
    | UnknownTransactionTypeByte(typeByte: byte)
    | UnknownTransactionTypeString(typeName: string)

  datatype ParseTransactionStatusError =
    | UnknownTransactionStatusByte(statusByte: byte)
    | UnknownTransactionStatusString(statusName: string)

  datatype ParseError =
    | TransactionTypeError(typeError: ParseTransactionTypeError)
    | TransactionStatusError(statusError: ParseTransactionStatusError)
    | RecordDamaged(txId: u64)
    | UnexpectedEof(needed: nat, got: nat)
    | UnexpectedRecordSize(recordSize: u32)
    | InvalidMagic
    | RecordTooShort
    | Io
    | InvalidUtf8
    | InvalidNumber
    | MalformedLine
    | MissingField(field: string)
    | InvalidArgument(message: string)
}
