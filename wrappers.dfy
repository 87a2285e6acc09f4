/** Failure-carrying results, and the errors the segment storage layer reports. */
module Wrappers {

  datatype Option<+T> = None | Some(value: T)

  datatype Result<+T, +E> = Success(value: T) | Failure(error: E)
}

module Errors {

  /** The error conditions the store, index and segment surface to their callers. */
  datatype Error =
    | WriteFailed        // the buffered writer or the file refused a write
    | FileTooLarge       // a write would carry the file past the largest int64 offset
    | FlushFailed        // flushing the write buffer failed
    | CloseFailed        // closing a file failed
    | RemoveFailed       // deleting a file failed
    | NegativeOffset     // os.File.ReadAt was given an offset below zero
    | Eof                // os.File.ReadAt ran out of bytes before filling its buffer
    | NotFound           // the index holds no entry for the requested slot
    | CapacityExceeded   // the index's pre-allocated capacity is used up
    | MarshalFailed      // the record could not be serialised
    | Corrupt            // the stored bytes do not deserialise to a record
    | FileClosed         // the file was already closed (os.ErrClosed)
}
