/**
 * The segment (internal/log/segment.go): one store and one index rooted at `baseOffset`.
 * It stamps each appended record with the next offset, writes it to the store, records
 * (offset - baseOffset, position) in the index, and on opening recovers the next offset
 * from the index's last entry.
 *
 * Offsets are uint64 and relative offsets uint32, as in the source: `nextOffset++` wraps,
 * the index entry keeps the low 32 bits of the relative offset, and a read converts
 * `off - baseOffset` (computed modulo 2^64) to int64 before asking the index.
 */
module LogSegment {
  import opened Ints
  import opened Wrappers
  import opened Errors
  import opened Records
  import opened LogStore
  import opened LogIndex

  /** The segment part of the log's configuration (config.go, flattened). */
  datatype Config = Config(MaxStoreBytes: uint64, MaxIndexBytes: uint64, InitialOffset: uint64)

  /** How the steps of one Append that can fail for reasons outside the model go. */
  datatype AppendFaults = AppendFaults(marshalFails: bool, storeWrite: WriteFault)

  datatype CloseFaults = CloseFaults(indexCloseFails: bool, storeFlushFails: bool, storeCloseFails: bool)

  datatype RemoveFaults = RemoveFaults(close: CloseFaults, indexRemoveFails: bool, storeRemoveFails: bool)

  /** The index slot a read of absolute offset `off` asks for: `int64(off - baseOffset)`. */
  function RelativeIndex(off: uint64, base: uint64): (r: int64)
    ensures base <= off <= base + MaxInt64 ==> r == off - base
    ensures r == -1 <==> Wrap64(off + 1) == base
  {
    ToInt64(Wrap64(off - base))
  }

  /** The next offset `newSegment` recovers from the index's entries. */
  function RecoveredNextOffset(base: uint64, entries: seq<Entry>): uint64
  {
    if |entries| == 0 then base else Wrap64(base + entries[|entries| - 1].rel + 1)
  }

  /** Entry `i` records relative offset `i`, truncated to 32 bits as the entry stores it. */
  ghost predicate Dense(entries: seq<Entry>)
  {
    forall i :: 0 <= i < |entries| ==> entries[i].rel == i % TwoTo32
  }

  /**
   * The index and the next offset agree: entry `i` is the record at `base + i`, and the
   * next offset is just past the last entry. Files written by this code satisfy it.
   */
  ghost predicate Aligned(base: uint64, next: uint64, entries: seq<Entry>)
  {
    base + |entries| == next && Dense(entries)
  }

  /** What `segment.Read(off)` returns, given the index entries and the store's bytes. */
  function ReadAbsolute(entries: seq<Entry>, contents: seq<byte>, base: uint64, off: uint64): Result<Record, Error>
  {
    match Lookup(entries, RelativeIndex(off, base))
    case Failure(e) => Failure(e)
    case Success(entry) =>
      match ReadFrame(contents, entry.pos)
      case Failure(e) => Failure(e)
      case Success(p) => Unmarshal(p)
  }

  /** A read that first rejects offsets outside [base, next): the corrected Read. */
  function ReadChecked(entries: seq<Entry>, contents: seq<byte>, base: uint64, next: uint64, off: uint64): Result<Record, Error>
  {
    if off < base || next <= off then Failure(NotFound) else ReadAbsolute(entries, contents, base, off)
  }

  /**
   * Every offset in `readable` is in the index, and reading it yields the record stored
   * under it, which carries that very offset.
   */
  ghost predicate Readable(entries: seq<Entry>, contents: seq<byte>, base: uint64, readable: map<uint64, Record>)
  {
    forall o {:trigger ReadAbsolute(entries, contents, base, o)} :: o in readable ==>
      0 <= RelativeIndex(o, base) < |entries| && readable[o].offset == o &&
      ReadAbsolute(entries, contents, base, o) == Success(readable[o])
  }

  /** Restart: an index written by this code yields the offset just past its last entry. */
  lemma RecoveryResumes(base: uint64, entries: seq<Entry>)
    requires Dense(entries) && |entries| <= TwoTo32 && base + |entries| <= MaxUint64
    ensures RecoveredNextOffset(base, entries) == base + |entries|
    ensures Aligned(base, RecoveredNextOffset(base, entries), entries)
  {
    if |entries| > 0 {
      assert entries[|entries| - 1].rel == |entries| - 1;
    }
  }

  /**
   * Recovery reads only 32 bits of relative offset: once a segment holds 2^32 + 1 records,
   * reopening it resumes at base + 1.
   */
  lemma RecoveryTruncatesPast32Bits(base: uint64, entries: seq<Entry>)
    requires Dense(entries) && |entries| == TwoTo32 + 1
    ensures RecoveredNextOffset(base, entries) == Wrap64(base + 1)
    ensures base + |entries| <= MaxUint64 ==>
      RelativeIndex(RecoveredNextOffset(base, entries), base) == 1 < |entries|
  {
    assert entries[|entries| - 1].rel == 0;
  }

  /** The corrected recovery: the next offset follows from the number of entries in use. */
  function RecoveredNextOffsetByCount(base: uint64, entries: seq<Entry>): uint64
  {
    Wrap64(base + |entries|)
  }

  /** Recovery by count resumes just past the last entry however many entries there are. */
  lemma RecoveryByCountResumes(base: uint64, entries: seq<Entry>)
    requires Dense(entries) && base + |entries| <= MaxUint64
    ensures RecoveredNextOffsetByCount(base, entries) == base + |entries|
    ensures Aligned(base, RecoveredNextOffsetByCount(base, entries), entries)
    ensures |entries| <= TwoTo32 ==> RecoveredNextOffsetByCount(base, entries) == RecoveredNextOffset(base, entries)
  {
    if |entries| <= TwoTo32 {
      RecoveryResumes(base, entries);
    }
  }

  /** Appending to the index and the store never changes what an earlier read returned. */
  lemma ReadAbsoluteStable(entries: seq<Entry>, contents: seq<byte>, base: uint64, off: uint64,
                           more: seq<Entry>, extra: seq<byte>)
    requires 0 <= RelativeIndex(off, base) < |entries|
    requires ReadAbsolute(entries, contents, base, off).Success?
    ensures ReadAbsolute(entries + more, contents + extra, base, off) == ReadAbsolute(entries, contents, base, off)
  {
    var slot := RelativeIndex(off, base);
    assert (entries + more)[slot] == entries[slot];
    ReadFrameStable(contents, extra, entries[slot].pos);
  }

  /** Round trip: the record whose frame and entry were just appended reads back intact. */
  lemma ReadAbsoluteAppended(entries: seq<Entry>, contents: seq<byte>, base: uint64, off: uint64,
                             rel: uint32, rec: Record)
    requires RelativeIndex(off, base) == |entries|
    requires |contents| + LenWidth + |Marshal(rec)| <= MaxFileSize
    ensures ReadAbsolute(entries + [Entry(rel, |contents|)], contents + Frame(Marshal(rec)), base, off) == Success(rec)
  {
    ReadFrameAppended(contents, Marshal(rec));
    UnmarshalMarshal(rec);
  }

  /** Growing the index and the store at their ends keeps every readable offset readable. */
  lemma ReadableGrows(entries: seq<Entry>, contents: seq<byte>, base: uint64, readable: map<uint64, Record>,
                      more: seq<Entry>, extra: seq<byte>)
    requires Readable(entries, contents, base, readable)
    ensures Readable(entries + more, contents + extra, base, readable)
  {
    forall o | o in readable
      ensures 0 <= RelativeIndex(o, base) < |entries + more| && readable[o].offset == o
      ensures ReadAbsolute(entries + more, contents + extra, base, o) == Success(readable[o])
    {
      assert ReadAbsolute(entries, contents, base, o) == Success(readable[o]);
      ReadAbsoluteStable(entries, contents, base, o, more, extra);
    }
  }

  /**
   * Out-of-range reads fail: with the index aligned, an offset outside [base, next) finds no
   * entry, except `base - 1` (modulo 2^64), which converts to the index's -1 sentinel.
   */
  lemma ReadOutsideRangeFails(entries: seq<Entry>, contents: seq<byte>, base: uint64, next: uint64, off: uint64)
    requires Aligned(base, next, entries)
    requires off < base || next <= off
    requires Wrap64(off + 1) != base
    ensures ReadAbsolute(entries, contents, base, off) == Failure(NotFound)
  {
    var slot := RelativeIndex(off, base);
    if 0 <= slot {
      if base <= off {
        assert slot == off - base;
      } else {
        assert slot == off - base + TwoTo64;
      }
    }
  }

  /**
   * As written, a read of `base - 1` (modulo 2^64) returns the last record of a non-empty
   * segment: the record at `next - 1`, not one at the offset asked for.
   */
  lemma ReadBeforeBaseReadsLast(entries: seq<Entry>, contents: seq<byte>, base: uint64, next: uint64)
    requires Aligned(base, next, entries) && |entries| > 0
    requires EntryWidth * |entries| <= MaxUint64
    ensures Wrap64(base - 1) < base || next <= Wrap64(base - 1)
    ensures ReadAbsolute(entries, contents, base, Wrap64(base - 1)) == ReadAbsolute(entries, contents, base, next - 1)
  {
    assert RelativeIndex(Wrap64(base - 1), base) == -1;
    assert RelativeIndex(next - 1, base) == |entries| - 1;
  }

  /**
   * The corrected read differs from the read as written only at `base - 1`, and succeeds
   * only inside [base, next).
   */
  lemma ReadCheckedAgrees(entries: seq<Entry>, contents: seq<byte>, base: uint64, next: uint64, off: uint64)
    requires Aligned(base, next, entries)
    ensures ReadChecked(entries, contents, base, next, off).Success? ==> base <= off < next
    ensures Wrap64(off + 1) != base ==>
      ReadChecked(entries, contents, base, next, off) == ReadAbsolute(entries, contents, base, off)
  {
    if Wrap64(off + 1) != base && (off < base || next <= off) {
      ReadOutsideRangeFails(entries, contents, base, next, off);
    }
  }

  /**
   * One successful append keeps every readable offset readable and, when a read of `cur`
   * would look at the new entry, makes `cur` readable as the stamped record.
   */
  lemma ReadableAfterAppend(entries: seq<Entry>, contents: seq<byte>, base: uint64, readable: map<uint64, Record>,
                            cur: uint64, rel: uint32, stamped: Record)
    requires Readable(entries, contents, base, readable)
    requires stamped.offset == cur
    requires |contents| + LenWidth + |Marshal(stamped)| <= MaxFileSize
    ensures Readable(entries + [Entry(rel, |contents|)], contents + Frame(Marshal(stamped)), base,
                     if RelativeIndex(cur, base) == |entries| then readable[cur := stamped] else readable)
  {
    var entries' := entries + [Entry(rel, |contents|)];
    var contents' := contents + Frame(Marshal(stamped));
    ReadableGrows(entries, contents, base, readable, [Entry(rel, |contents|)], Frame(Marshal(stamped)));
    if RelativeIndex(cur, base) == |entries| {
      ReadAbsoluteAppended(entries, contents, base, cur, rel, stamped);
      var readable' := readable[cur := stamped];
      forall o | o in readable'
        ensures 0 <= RelativeIndex(o, base) < |entries'| && readable'[o].offset == o
        ensures ReadAbsolute(entries', contents', base, o) == Success(readable'[o])
      {
        if o != cur {
          assert ReadAbsolute(entries', contents', base, o) == Success(readable[o]);
        }
      }
    }
  }

  /** Appending the entry for `next` to an aligned index keeps it aligned with `next + 1`. */
  lemma AlignedAfterAppend(base: uint64, next: uint64, entries: seq<Entry>, pos: uint64)
    requires Aligned(base, next, entries) && next < MaxUint64
    requires EntryWidth * |entries| <= MaxUint64
    ensures RelativeIndex(next, base) == |entries|
    ensures Aligned(base, Wrap64(next + 1), entries + [Entry(Trunc32(Wrap64(next - base)), pos)])
  {
    var entries' := entries + [Entry(Trunc32(Wrap64(next - base)), pos)];
    forall i | 0 <= i < |entries'|
      ensures entries'[i].rel == i % TwoTo32
    {
      if i < |entries| {
        assert entries'[i] == entries[i];
      }
    }
  }

  /** The offsets handed out so far are consecutive from `first`; one more keeps them so. */
  lemma IssuedGrows(first: uint64, issued: seq<uint64>)
    requires forall i :: 0 <= i < |issued| ==> issued[i] == Wrap64(first + i)
    ensures var issued' := issued + [Wrap64(first + |issued|)];
      forall i :: 0 <= i < |issued'| ==> issued'[i] == Wrap64(first + i)
    ensures Wrap64(Wrap64(first + |issued|) + 1) == Wrap64(first + |issued + [Wrap64(first + |issued|)]|)
  {
    Wrap64Succ(first + |issued|);
  }

  class Segment {
    const store: Store
    const index: Index
    const baseOffset: uint64
    var nextOffset: uint64
    const config: Config
    var indexFileRemoved: bool
    var storeFileRemoved: bool

    /** The next offset recovered when the segment was opened. */
    ghost const firstOffset: uint64
    /** The offsets returned by successful Appends, in order. */
    ghost var issued: seq<uint64>
    /** The records appended through this object that a read by their offset finds. */
    ghost var readable: map<uint64, Record>

    ghost predicate Valid()
      reads this, store, index
    {
      && store.Valid() && index.Valid()
      && index.capacity == config.MaxIndexBytes
      && nextOffset == Wrap64(firstOffset + |issued|)
      && (forall i :: 0 <= i < |issued| ==> issued[i] == Wrap64(firstOffset + i))
      && Readable(index.entries, store.contents, baseOffset, readable)
    }

    /**
     * `newSegment`: opens the store and the index over the existing files' contents and
     * recovers the next offset from the index's last entry.
     */
    constructor (storeBytes: seq<byte>, indexEntries: seq<Entry>, baseOffset: uint64, c: Config)
      requires |storeBytes| <= MaxFileSize
      requires EntryWidth * |indexEntries| <= c.MaxIndexBytes
      ensures Valid() && fresh(store) && fresh(index)
      ensures this.baseOffset == baseOffset && config == c
      ensures store.contents == storeBytes && !store.failed && !store.closed
      ensures index.entries == indexEntries && !index.closed
      ensures nextOffset == RecoveredNextOffset(baseOffset, indexEntries)
      ensures firstOffset == nextOffset && issued == [] && readable == map[]
      ensures !indexFileRemoved && !storeFileRemoved
    {
      this.baseOffset := baseOffset;
      config := c;
      var st := new Store(storeBytes);
      store := st;
      var idx := new Index(indexEntries, c.MaxIndexBytes);
      index := idx;
      var last := idx.Read(-1);
      var next: uint64;
      if last.Failure? {
        next := baseOffset;
      } else {
        next := Wrap64(baseOffset + last.value.rel + 1);
      }
      nextOffset := next;
      firstOffset := next;
      issued := [];
      readable := map[];
      indexFileRemoved := false;
      storeFileRemoved := false;
    }

    /** True once the store or the index has reached its configured capacity. */
    predicate IsMaxed()
      reads this, store, index
    {
      store.size >= config.MaxStoreBytes || index.size >= config.MaxIndexBytes || index.IsMaxed()
    }

    /**
     * Stamps `record` with the next offset, appends it to the store and indexes it. On
     * success returns the offset given and moves the next offset on by one; on failure
     * returns 0 and leaves the next offset alone, without taking back bytes already
     * written to the store. The caller's record is stamped either way (`stamped`).
     */
    method Append(record: Record, faults: AppendFaults) returns (offset: uint64, stamped: Record, err: Option<Error>)
      requires Valid()
      modifies this, store, index
      ensures Valid()
      ensures stamped == record.(offset := old(nextOffset))
      ensures faults.marshalFails ==>
        err == Some(MarshalFailed) && store.contents == old(store.contents) && store.failed == old(store.failed)
      ensures (!faults.marshalFails &&
               !(!old(store.failed) && faults.storeWrite == NoFault &&
                 old(store.size) + LenWidth + |Marshal(stamped)| <= MaxFileSize)) ==>
        err.Some? && store.contents == old(store.contents) && store.failed
      ensures (!faults.marshalFails &&
               !old(store.failed) && faults.storeWrite == NoFault &&
               old(store.size) + LenWidth + |Marshal(stamped)| <= MaxFileSize) ==>
        store.contents == old(store.contents) + Frame(Marshal(stamped)) && !store.failed &&
        err == (if old(index.IsMaxed()) then Some(CapacityExceeded) else None)
      ensures err.None? ==>
        && offset == old(nextOffset)
        && nextOffset == Wrap64(old(nextOffset) + 1)
        && issued == old(issued) + [offset]
        && index.entries == old(index.entries) + [Entry(Trunc32(Wrap64(offset - baseOffset)), old(store.size))]
        && readable == (if RelativeIndex(offset, baseOffset) == |old(index.entries)|
                        then old(readable)[offset := stamped] else old(readable))
      ensures err.Some? ==>
        offset == 0 && nextOffset == old(nextOffset) && issued == old(issued) &&
        index.entries == old(index.entries) && readable == old(readable)
      ensures err.None? && Aligned(baseOffset, old(nextOffset), old(index.entries)) && old(nextOffset) < MaxUint64 ==>
        Aligned(baseOffset, nextOffset, index.entries) && offset in readable
      ensures store.size >= old(store.size) && index.size >= old(index.size)
      ensures old(IsMaxed()) ==> IsMaxed()
      ensures store.closed == old(store.closed) && index.closed == old(index.closed)
      ensures indexFileRemoved == old(indexFileRemoved) && storeFileRemoved == old(storeFileRemoved)
    {
      var cur := nextOffset;
      stamped := record.(offset := cur);
      if faults.marshalFails {
        return 0, stamped, Some(MarshalFailed);
      }
      var p := Marshal(stamped);
      ghost var contents0 := store.contents;
      ghost var entries0 := index.entries;
      var _, pos, storeErr := store.Append(p, faults.storeWrite);
      if storeErr.Some? {
        return 0, stamped, storeErr;
      }
      var rel := Trunc32(Wrap64(nextOffset - baseOffset));
      var indexErr := index.Write(rel, pos);
      if indexErr.Some? {
        ReadableGrows(entries0, contents0, baseOffset, readable, [], Frame(p));
        assert entries0 + [] == entries0;
        return 0, stamped, indexErr;
      }
      nextOffset := Wrap64(nextOffset + 1);
      NoteAppended(cur, stamped, entries0, contents0);
      if Aligned(baseOffset, cur, entries0) && cur < MaxUint64 {
        AlignedAfterAppend(baseOffset, cur, entries0, pos);
      }
      return cur, stamped, None;
    }

    /** The ghost bookkeeping of a successful Append of `stamped` at offset `cur`. */
    ghost method NoteAppended(cur: uint64, stamped: Record, entries0: seq<Entry>, contents0: seq<byte>)
      requires store.Valid() && index.Valid() && index.capacity == config.MaxIndexBytes
      requires cur == Wrap64(firstOffset + |issued|) && nextOffset == Wrap64(cur + 1)
      requires forall i :: 0 <= i < |issued| ==> issued[i] == Wrap64(firstOffset + i)
      requires Readable(entries0, contents0, baseOffset, readable)
      requires stamped.offset == cur && |contents0| + LenWidth + |Marshal(stamped)| <= MaxFileSize
      requires index.entries == entries0 + [Entry(Trunc32(Wrap64(cur - baseOffset)), |contents0|)]
      requires store.contents == contents0 + Frame(Marshal(stamped))
      modifies this`issued, this`readable
      ensures Valid()
      ensures issued == old(issued) + [cur]
      ensures readable == if RelativeIndex(cur, baseOffset) == |entries0| then old(readable)[cur := stamped] else old(readable)
    {
      ReadableAfterAppend(entries0, contents0, baseOffset, readable, cur, Trunc32(Wrap64(cur - baseOffset)), stamped);
      IssuedGrows(firstOffset, issued);
      issued := issued + [cur];
      if RelativeIndex(cur, baseOffset) == |entries0| {
        readable := readable[cur := stamped];
      }
    }

    /**
     * Looks up the position of `off` in the index, reads its bytes from the store and
     * deserialises them.
     */
    method Read(off: uint64, flushFails: bool) returns (r: Result<Record, Error>)
      requires Valid()
      modifies store
      ensures Valid()
      ensures store.contents == old(store.contents) && store.closed == old(store.closed)
      ensures Lookup(index.entries, RelativeIndex(off, baseOffset)).Failure? ==>
        r == Failure(NotFound) && store.failed == old(store.failed)
      ensures Lookup(index.entries, RelativeIndex(off, baseOffset)).Success? ==>
        store.failed == (old(store.failed) || flushFails) &&
        r == (if store.failed then Failure(FlushFailed)
              else if store.closed then Failure(FileClosed)
              else ReadAbsolute(index.entries, store.contents, baseOffset, off))
      ensures !old(store.failed) && !flushFails && !store.closed && off in readable ==>
        r == Success(readable[off]) && r.value.offset == off
    {
      assert off in readable ==>
        ReadAbsolute(index.entries, store.contents, baseOffset, off) == Success(readable[off]);
      var hit := index.Read(RelativeIndex(off, baseOffset));
      if hit.Failure? {
        return Failure(hit.error);
      }
      var p := store.Read(hit.value.pos, flushFails);
      if p.Failure? {
        return Failure(p.error);
      }
      r := Unmarshal(p.value);
    }

    /** The corrected read: offsets outside [baseOffset, nextOffset) are not found. */
    method ReadInRange(off: uint64, flushFails: bool) returns (r: Result<Record, Error>)
      requires Valid()
      modifies store
      ensures Valid()
      ensures store.contents == old(store.contents) && store.closed == old(store.closed)
      ensures r.Success? ==> baseOffset <= off < nextOffset
      ensures (off < baseOffset || nextOffset <= off) ==> r == Failure(NotFound)
      ensures !old(store.failed) && !flushFails && !store.closed ==>
        r == ReadChecked(index.entries, store.contents, baseOffset, nextOffset, off)
      ensures !old(store.failed) && !flushFails && !store.closed && off in readable && baseOffset <= off < nextOffset ==>
        r == Success(readable[off])
    {
      if off < baseOffset || nextOffset <= off {
        return Failure(NotFound);
      }
      r := Read(off, flushFails);
    }

    /**
     * Closes the index, then the store; a failure to close the index skips the store. A
     * store whose flush fails stays open.
     */
    method Close(faults: CloseFaults) returns (err: Option<Error>)
      requires Valid()
      modifies store, index
      ensures Valid()
      ensures store.contents == old(store.contents) && index.entries == old(index.entries)
      ensures (faults.indexCloseFails || old(index.closed)) ==>
        err == Some(CloseFailed) &&
        index.closed == old(index.closed) && index.fileLength == old(index.fileLength) &&
        store.closed == old(store.closed) && store.failed == old(store.failed)
      ensures !(faults.indexCloseFails || old(index.closed)) ==>
        index.closed && index.fileLength == index.size &&
        store.failed == (old(store.failed) || faults.storeFlushFails) &&
        err == (if store.failed then Some(FlushFailed)
                else if faults.storeCloseFails || old(store.closed) then Some(CloseFailed) else None) &&
        store.closed == (old(store.closed) || !store.failed)
    {
      err := index.Close(faults.indexCloseFails);
      if err.Some? {
        return;
      }
      err := store.Close(faults.storeFlushFails, faults.storeCloseFails);
    }

    /** Closes the segment, then deletes the index file and then the store file. */
    method Remove(faults: RemoveFaults) returns (err: Option<Error>)
      requires Valid()
      modifies this, store, index
      ensures Valid()
      ensures nextOffset == old(nextOffset) && issued == old(issued) && readable == old(readable)
      ensures store.contents == old(store.contents) && index.entries == old(index.entries)
      ensures var indexOk := !faults.close.indexCloseFails && !old(index.closed);
        && (indexOk ==>
              index.closed && index.fileLength == index.size &&
              store.failed == (old(store.failed) || faults.close.storeFlushFails) &&
              store.closed == (old(store.closed) || !store.failed))
        && (!indexOk ==>
              index.closed == old(index.closed) && index.fileLength == old(index.fileLength) &&
              store.closed == old(store.closed) && store.failed == old(store.failed))
      ensures var closeOk := !faults.close.indexCloseFails && !old(index.closed) && !old(store.failed) &&
                             !faults.close.storeFlushFails && !faults.close.storeCloseFails && !old(store.closed);
        && indexFileRemoved == (old(indexFileRemoved) || (closeOk && !faults.indexRemoveFails))
        && storeFileRemoved == (old(storeFileRemoved) || (closeOk && !faults.indexRemoveFails && !faults.storeRemoveFails))
        && (err.None? <==> closeOk && !faults.indexRemoveFails && !faults.storeRemoveFails)
    {
      err := Close(faults.close);
      if err.Some? {
        return;
      }
      if faults.indexRemoveFails {
        return Some(RemoveFailed);
      }
      indexFileRemoved := true;
      if faults.storeRemoveFails {
        return Some(RemoveFailed);
      }
      storeFileRemoved := true;
    }
  }

  /**
   * On a consistent segment, `IsMaxed` means: the store has reached its byte limit, or the
   * index has no room for one more entry (the middle test of the source is implied by it).
   */
  lemma IsMaxedIff(s: Segment)
    requires s.Valid()
    ensures s.IsMaxed() <==>
      s.store.size >= s.config.MaxStoreBytes || s.config.MaxIndexBytes < s.index.size + EntryWidth
  {
  }

  /**
   * The discrepancy on concrete values: a segment based at 10 holding the one record with
   * offset 10 returns that record when asked for offset 9.
   */
  lemma ReadBeforeBaseExample()
    ensures ReadAbsolute([Entry(0, 0)], Frame(Marshal(Record([1, 2], 10))), 10, 9) == Success(Record([1, 2], 10))
  {
    var rec := Record([1, 2], 10);
    ReadAbsoluteAppended([], [], 10, 10, 0, rec);
    assert [] + [Entry(0, 0)] == [Entry(0, 0)];
    assert [] + Frame(Marshal(rec)) == Frame(Marshal(rec));
    ReadBeforeBaseReadsLast([Entry(0, 0)], Frame(Marshal(rec)), 10, 11);
  }
}
