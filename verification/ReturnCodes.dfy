/** What an operation of the storage engine answers. */
module ReturnCodes {
  datatype Re =
    | Success
    | Empty
    | InvalidArgument
    | InternalError
    | NoMem
    | LockedUnlock
    | IoErrSeek
    | IoErrRead
    | BufferPoolNoBuf
    | BufferPoolInvalidPageId
    | LogBufFull
    | RecordNoMem
    | RecordInvalidKey
    | RecordInvalidRId
    | RecordDuplicateKey
    | RecordRecordNotExist
    | RecordEof
}
