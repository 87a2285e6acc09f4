# proglog commit log: store and segment, in Dafny

This project models the storage core of proglog's commit log (package `internal/log`):

- **The store** (`internal/log/store.go`) is an append-only file of length-prefixed records.
  `Append` writes an eight-byte big-endian length and then the payload, through a write
  buffer. It returns the number of bytes written and the position the frame starts at.
  `Read(pos)` flushes the buffer, reads the length header at `pos` and then that many
  bytes. `ReadAt` flushes and then reads raw bytes. `Close` flushes and then closes the file.
- **The segment** (`internal/log/segment.go`) pairs one store with one index, rooted at a
  base offset. `Append` stamps the record with the next offset, serialises it, appends it
  to the store and writes `(offset - baseOffset, position)` to the index. `Read(off)`
  looks the offset up in the index, reads the frame and deserialises it. Opening a
  segment recovers the next offset from the index's last entry. `IsMaxed`, `Close` and
  `Remove` complete it.
- **The index** is not part of the core. It appears only through the contract the segment
  relies on: a bounded list of 12-byte entries, where slot `-1` means the last entry.

Each file of the model has its own module:

| file | module | what it holds |
|---|---|---|
| `wrappers.dfy` | `Wrappers`, `Errors` | `Option`, `Result` and the error values |
| `ints.dfy` | `Ints` | Go's fixed-width integers, with uint64 wrap-around, `int64(x)` and `uint32(x)` written out |
| `big_endian.dfy` | `BigEndian` | `binary.BigEndian` encoding of fixed-width integers |
| `records.dfy` | `Records` | the log record and a stand-in for its serialisation |
| `store.dfy` | `LogStore` | the class `Store`, with `ReadFrame` as the specification of a read |
| `index.dfy` | `LogIndex` | the class `Index` and the `Lookup` function |
| `segment.dfy` | `LogSegment` | the class `Segment`, with `ReadAbsolute` as the specification of a read |

The store keeps the file and its write buffer together as one byte sequence, `contents`.
Every read flushes first, so the buffer never changes what a read returns. The buffer's
sticky error is the store's `failed` flag: after one failed write or flush, every later
write and flush fails.

Faults of the file system are parameters of each operation. These are a failing write, a
failing flush, a failing close, a failing remove and a failing serialisation.

The segment carries ghost state:

- `issued`: the offsets its successful appends returned.
- `readable`: a map from an offset appended through the segment to the stamped record. An offset
  joins it only when a read of it reaches the new index entry. That always holds on a segment
  whose index is aligned with its offsets, as every segment this code writes is.

Its invariant `Valid` says that the offsets are consecutive modulo 2^64. It also says that
reading any offset in `readable` yields exactly that record.

## Model

| member | source | states |
|---|---|---|
| `Ints.Wrap64` | internal/log/segment.go:72 | uint64 arithmetic: a value in range is kept, and a negative value within one turn gains 2^64 |
| `Ints.ToInt64` | internal/log/segment.go:79 | Go's `int64(x)`: values up to 2^63-1 are kept, and larger ones lose 2^64 and become negative |
| `Ints.Trunc32` | internal/log/segment.go:67 | Go's `uint32(x)`: values below 2^32 are kept |
| `BigEndian.DecodeEncode` | internal/log/store.go:12 | decoding the big-endian encoding of `n` in `width` bytes gives `n` back, whenever `n` fits |
| `BigEndian.EncodeDecode` | internal/log/store.go:12 | encoding the decoded value of any byte string in its own width gives the bytes back |
| `BigEndian.Uint64OfPutUint64` | internal/log/store.go:48 | `enc.Uint64` of the header written for length `n` is `n` |
| `BigEndian.PutUint64OfUint64` | internal/log/store.go:72 | every eight-byte header is the encoding of the length read from it |
| `Records.UnmarshalMarshal` | internal/log/segment.go:55 | deserialising a serialised record gives the same value and offset back |
| `Records.MarshalInjective` | internal/log/segment.go:55 | distinct records serialise to distinct bytes |
| `LogStore.FileReadAt` | internal/log/store.go:69 | `os.File.ReadAt` never returns more bytes than asked for |
| `LogStore.ReadFrameIff` | internal/log/store.go:62-77 | a read at `pos` returns `p` if and only if the bytes at `pos` start with `p`'s eight-byte length followed by `p`, within the int64 offset range |
| `LogStore.ReadFrameAppended` | internal/log/store.go:43-77 | reading at the position Append returned gives back the appended payload |
| `LogStore.ReadFrameStable` | internal/log/store.go:46-57 | appending more bytes never changes a read that succeeded |
| `LogStore.Store.constructor` | internal/log/store.go:27-40 | a store opened over an existing file has `size` equal to the file's length and no pending error |
| `LogStore.Store.Append` | internal/log/store.go:43-59 | on success: the frame is added at the end, `pos` is the old size, `n` is 8 plus the payload length, and size grows by `n`. On failure: returns 0, 0 and an error, the contents are unchanged, and the store's error sticks. The invariant `size == |contents|` is kept |
| `LogStore.Store.Read` | internal/log/store.go:62-77 | flushes (a failed flush is reported and sticks). A closed file refuses the read. Otherwise it returns exactly `ReadFrame(contents, pos)`. The contents never change |
| `LogStore.Store.ReadAt` | internal/log/store.go:80-87 | flushes, and a closed file refuses the read. Otherwise it fills `p` with the file's bytes from `off`, returns their count, and reports io.EOF on a short read. Bytes of `p` past the count are untouched |
| `LogStore.Store.Close` | internal/log/store.go:90-98 | flushes, then closes. A failed flush is returned and leaves the file open. Closing a closed file fails. The contents are unchanged |
| `LogIndex.Index.constructor` | internal/log/segment.go:38 | an index opened over existing entries holds them, and its file is pre-allocated to MaxIndexBytes |
| `LogIndex.Index.Write` | internal/log/segment.go:64-70 | when one more entry fits, the entry is added at the end and size grows by 12. Otherwise the write fails with nothing changed |
| `LogIndex.Index.Read` | internal/log/segment.go:41 | slot -1 yields the last entry and slot `n` the `n`th. Any other slot, or -1 on an empty index, is not found. Nothing changes |
| `LogIndex.Index.Close` | internal/log/segment.go:115 | on success the file is cut to the bytes in use and the index is closed. A failed close, or a close of a closed index, changes nothing |
| `LogSegment.RelativeIndex` | internal/log/segment.go:79 | `int64(off - baseOffset)` is the distance from the base for offsets up to 2^63-1 above it, and is the last-entry slot -1 exactly when `off + 1 == baseOffset` modulo 2^64 |
| `LogSegment.RecoveryResumes` | internal/log/segment.go:41-47 | reopening a segment whose index this code wrote (at most 2^32 entries) resumes at `baseOffset` plus the number of entries, and the recovered state is aligned |
| `LogSegment.RecoveryTruncatesPast32Bits` | internal/log/segment.go:44-46 | with 2^32 + 1 entries, the 32-bit relative offset of the last entry is 0, so reopening resumes at `baseOffset + 1`, an offset that already has an entry |
| `LogSegment.RecoveryByCountResumes` | internal/log/segment.go:41-47 | the corrected recovery, by number of entries, resumes just past the last entry for any number of entries, and agrees with the source's recovery up to 2^32 entries |
| `LogSegment.Segment.constructor` | internal/log/segment.go:20-49 | opens the store and index over the existing contents. The next offset is `baseOffset` for an empty index, and otherwise `baseOffset` plus the last entry's relative offset plus 1 |
| `LogSegment.IsMaxedIff` | internal/log/segment.go:93-97 | a segment is maxed exactly when the store has reached MaxStoreBytes or the index has no room for one more entry |
| `LogSegment.Segment.Append` | internal/log/segment.go:52-74 | details below the table |
| `LogSegment.ReadAbsoluteAppended` | internal/log/segment.go:52-90 | round trip: the record whose frame and entry were just appended reads back intact by its offset |
| `LogSegment.ReadAbsoluteStable` | internal/log/segment.go:77-90 | appending to the store and index never changes an earlier successful read |
| `LogSegment.ReadableGrows` | internal/log/segment.go:77-90 | growing the index and store at their ends keeps every readable offset readable as the same record |
| `LogSegment.ReadableAfterAppend` | internal/log/segment.go:52-90 | one successful append keeps all readable offsets and adds the new one, whenever a read of it would reach the new entry |
| `LogSegment.AlignedAfterAppend` | internal/log/segment.go:64-71 | appending the entry for `nextOffset` to an aligned index yields an index aligned with `nextOffset + 1` |
| `LogSegment.IssuedGrows` | internal/log/segment.go:52-73 | the offsets Append returns stay consecutive from the first recovered offset, modulo 2^64 |
| `LogSegment.Segment.Read` | internal/log/segment.go:77-90 | an offset with no index entry is not found. Otherwise a failed flush is reported, a closed store refuses the read, or the result is exactly `ReadAbsolute`. Every offset an Append returned, while its entry is the one the read finds, reads back as the stamped record |
| `LogSegment.ReadOutsideRangeFails` | internal/log/segment.go:79-82 | on an aligned segment, an offset outside `[baseOffset, nextOffset)` other than `baseOffset - 1` is not found |
| `LogSegment.ReadBeforeBaseReadsLast` | internal/log/segment.go:79 | on an aligned, non-empty segment, reading `baseOffset - 1` (an offset outside the segment) returns whatever reading the last record returns |
| `LogSegment.ReadBeforeBaseExample` | internal/log/segment.go:79 | base 10, the single record at offset 10: reading offset 9 returns the record with offset 10 |
| `LogSegment.ReadCheckedAgrees` | internal/log/segment.go:77-90 | the range-checked read succeeds only inside `[baseOffset, nextOffset)`, and equals the read as written at every offset but `baseOffset - 1` |
| `LogSegment.Segment.ReadInRange` | internal/log/segment.go:77-90 | the corrected read: not found outside `[baseOffset, nextOffset)`, and otherwise as `Read`. Every readable offset in range reads back as its record |
| `LogSegment.Segment.Close` | internal/log/segment.go:114-122 | closes the index, then the store. A failed index close (or an index already closed) is returned, and the store is left untouched. Otherwise the index file is cut to size and closed, and the store's flush or close error is returned. A store whose flush fails stays open |
| `LogSegment.Segment.Remove` | internal/log/segment.go:100-111 | closes as `Close` does, with the same resulting index and store state. Then it removes the index file, then the store file, stopping at the first error. It succeeds exactly when no step fails, and the logical contents are unchanged |

`LogSegment.Segment.Append` states the following:

- The record is stamped with the old next offset.
- A serialisation or store failure returns 0 and leaves the offset, the index and the readable map unchanged.
- When the store write succeeded, its bytes stay even if the index then fails with "capacity exceeded".
- On success it returns the old next offset, and the next offset moves on by one modulo 2^64.
- On success the index gains `(uint32(offset - baseOffset), pos)`, and the returned offset joins `issued`.
- If the segment was aligned, it stays aligned and the new offset is readable.
- Sizes never shrink, and a maxed segment stays maxed.

## Left out

- File system: opening and naming the `.store` and `.index` files, `os.Stat`, and the directory are not modelled. A store or segment is opened over the bytes and entries its files already hold. The errors these calls can return are not modelled.
- `sync.Mutex` in the store: every operation is modelled as one atomic step, so concurrent callers are not modelled.
- The write buffer's mechanics: bytes buffered before a failed write are not modelled. Instead the store is marked failed, so no later write or flush succeeds and those bytes could never reach a reader.
- `LogStore.Store.Append`: a write that would take the file past 2^63-1 bytes (the int64 offset limit) is modelled as an I/O failure (`FileTooLarge`). The uint64 `size` counter therefore never wraps in the model.
- `LogStore.Store.Read`: Go's `make([]byte, n)` panics when the header claims an absurd length. The model returns io.EOF, which is what the file read returns for any length that does fit in memory.
- The protocol-buffer encoding of `api.Record`: `Records.Marshal` stands in for it, as the eight-byte offset followed by the value. Its round trip is proved. The real wire format is not modelled.
- `Records.Unmarshal`: the stand-in is canonical and rejects input shorter than eight bytes. Protocol-buffer decoding accepts many encodings of one record (any field order, unknown fields, non-minimal varints) and decodes empty input as the zero record. The model therefore makes no claim about bytes that were not produced by `Marshal`.
- `internal/log/index.go` is not part of this model. The index is specified only by what the segment uses: a bounded list of entries, slot -1 for the last, and a file cut down to size on close. Memory mapping is not modelled.
- `LogSegment.Segment.Append`: Go stamps the caller's record in place. The model returns the stamped record as `stamped` instead.
- `LogStore.Store.Append`: after `Close`, Go's buffered writer still accepts bytes until its buffer fills, and only then does the closed file refuse them. The model lets an append after `Close` succeed and does not model that later failure. Reads and a second close after `Close` fail, as they do on a closed `os.File`.
- `Config.Segment` is flattened into `LogSegment.Config`. `InitialOffset` is carried but is not used by the segment.
- `cmd/server/main.go`, the log that manages several segments, and the server are not part of this model.

## Findings

| source | as written | input that shows it | evidently intended | confidence | as-written member | corrected member |
|---|---|---|---|---|---|---|
| internal/log/segment.go:79 | `int64(off - baseOffset)` wraps `baseOffset - 1` to -1, which is the index's "last entry" slot, so `Read(baseOffset - 1)` returns the segment's last record | base offset 10, one record appended (offset 10), `Read(9)` returns the record with offset 10 | an offset below the segment's base is not found | not executed | `LogSegment.ReadBeforeBaseReadsLast`, `LogSegment.ReadBeforeBaseExample` | `LogSegment.Segment.ReadInRange`, `LogSegment.ReadCheckedAgrees` |
| internal/log/segment.go:41-47 | the next offset is recovered from the last entry's 32-bit relative offset, so a segment holding more than 2^32 records reopens at an offset it has already issued | 2^32 + 1 records appended from `baseOffset`, then the segment reopened: the next offset is `baseOffset + 1`, and the next Append issues it a second time | recovery resumes just past the last entry, `baseOffset` plus the number of entries | not executed | `LogSegment.RecoveryTruncatesPast32Bits` | `LogSegment.RecoveryByCountResumes` |
