/**
 * The index, specified only through the contract the segment relies on: a bounded sequence
 * of fixed-width entries, each a 4-byte relative offset and an 8-byte store position. The
 * backing file is pre-allocated to `capacity` bytes while open and cut down to the bytes
 * in use when closed. (index.go is not part of this model.)
 */
module LogIndex {
  import opened Ints
  import opened Wrappers
  import opened Errors

  const OffWidth: nat := 4
  const PosWidth: nat := 8
  /** Bytes per index entry. */
  const EntryWidth: nat := OffWidth + PosWidth

  datatype Entry = Entry(rel: uint32, pos: uint64)

  /** Entry `n` counted from the start, or the last entry when `n` is -1. */
  function Lookup(entries: seq<Entry>, n: int64): Result<Entry, Error>
  {
    if n == -1 && |entries| > 0 then Success(entries[|entries| - 1])
    else if 0 <= n < |entries| then Success(entries[n])
    else Failure(NotFound)
  }

  class Index {
    var entries: seq<Entry>
    /** Bytes in use. */
    var size: uint64
    /** The pre-allocated length of the backing file (MaxIndexBytes). */
    const capacity: uint64
    /** The length of the backing file. */
    var fileLength: uint64
    var closed: bool

    ghost predicate Valid()
      reads this
    {
      size == EntryWidth * |entries| && size <= capacity
    }

    /** Opens an index whose file already holds `existing`, pre-allocated to `maxIndexBytes`. */
    constructor (existing: seq<Entry>, maxIndexBytes: uint64)
      requires EntryWidth * |existing| <= maxIndexBytes
      ensures Valid()
      ensures entries == existing && capacity == maxIndexBytes
      ensures fileLength == maxIndexBytes && !closed
    {
      entries := existing;
      size := EntryWidth * |existing|;
      capacity := maxIndexBytes;
      fileLength := maxIndexBytes;
      closed := false;
    }

    /** True when one more entry would not fit in the pre-allocated file. */
    predicate IsMaxed()
      reads this
    {
      capacity < size + EntryWidth
    }

    /** Appends one entry, or fails when the pre-allocated capacity is used up. */
    method Write(rel: uint32, pos: uint64) returns (err: Option<Error>)
      requires Valid()
      modifies this
      ensures Valid() && fileLength == old(fileLength) && closed == old(closed)
      ensures err.None? <==> old(size) + EntryWidth <= capacity
      ensures err.None? ==> entries == old(entries) + [Entry(rel, pos)] && size == old(size) + EntryWidth
      ensures err.Some? ==> err == Some(CapacityExceeded) && entries == old(entries) && size == old(size)
    {
      if IsMaxed() {
        return Some(CapacityExceeded);
      }
      entries := entries + [Entry(rel, pos)];
      size := size + EntryWidth;
      return None;
    }

    /**
     * Entry `n` (0-based), or the last entry for `n == -1`; fails with NotFound on an empty
     * index or a slot past the bytes in use.
     */
    method Read(n: int64) returns (r: Result<Entry, Error>)
      requires Valid()
      ensures r.Success? <==> (n == -1 && |entries| > 0) || 0 <= n < |entries|
      ensures n == -1 && |entries| > 0 ==> r == Success(entries[|entries| - 1])
      ensures 0 <= n < |entries| ==> r == Success(entries[n])
      ensures r.Failure? ==> r.error == NotFound
    {
      if size == 0 || n < -1 {
        return Failure(NotFound);
      }
      var slot: nat := if n == -1 then (size - EntryWidth) / EntryWidth else n;
      if size < (slot + 1) * EntryWidth {
        return Failure(NotFound);
      }
      return Success(entries[slot]);
    }

    /** Cuts the file down to the bytes in use, then closes it; a closed index cannot be closed again. */
    method Close(fails: bool) returns (err: Option<Error>)
      requires Valid()
      modifies this
      ensures Valid() && entries == old(entries) && size == old(size)
      ensures err == (if fails || old(closed) then Some(CloseFailed) else None)
      ensures err.None? ==> closed && fileLength == size
      ensures err.Some? ==> closed == old(closed) && fileLength == old(fileLength)
    {
      if fails || closed {
        return Some(CloseFailed);
      }
      fileLength := size;
      closed := true;
      return None;
    }
  }
}
