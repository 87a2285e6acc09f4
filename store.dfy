/**
 * The store: an append-only file of length-prefixed records (internal/log/store.go).
 *
 * Each record is written as a frame: its length as eight big-endian bytes, then its bytes.
 * The file and the bytes still waiting in the write buffer are modelled together as one
 * byte sequence, `contents`; every read flushes first, so the buffer never changes what a
 * read sees. I/O failures of the file system are parameters of the operations.
 */
module LogStore {
  import opened Ints
  import opened Wrappers
  import opened Errors
  import opened BigEndian

  /** Number of bytes that hold a record's length (`lenWidth`). */
  const LenWidth: nat := 8

  /** The largest length a file can have: file offsets are int64. */
  const MaxFileSize: nat := MaxInt64

  /** How the underlying writes of one Append go. */
  datatype WriteFault = NoFault | HeaderFails | PayloadFails

  function Min(a: int, b: int): int
  {
    if a <= b then a else b
  }

  /** The frame Append adds for payload `p`: the eight-byte length header, then `p`. */
  function Frame(p: seq<byte>): (f: seq<byte>)
    requires |p| <= MaxUint64
  {
    PutUint64(|p|) + p
  }

  /**
   * `os.File.ReadAt` on a file holding `c`: asks for `want` bytes at `off` and gets those
   * that exist, with io.EOF when there are fewer; an empty request at a non-negative
   * offset always succeeds.
   */
  function FileReadAt(c: seq<byte>, want: nat, off: int64): (r: (seq<byte>, Option<Error>))
    ensures |r.0| <= want
  {
    if off < 0 then ([], Some(NegativeOffset))
    else
      var lo := Min(off, |c|);
      var hi := Min(off + want, |c|);
      (c[lo..hi], if hi - lo == want then None else Some(Eof))
  }

  /**
   * What a read of the frame at `pos` yields from the bytes `c`: the payload of that frame,
   * or the error the first failing step of `store.Read` reports.
   */
  function ReadFrame(c: seq<byte>, pos: uint64): Result<seq<byte>, Error>
  {
    if pos > MaxInt64 then Failure(NegativeOffset)
    else if pos + LenWidth > |c| then Failure(Eof)
    else if pos + LenWidth > MaxInt64 then Failure(NegativeOffset)
    else
      var n := Uint64(c[pos..pos + LenWidth]);
      if pos + LenWidth + n > |c| then Failure(Eof)
      else Success(c[pos + LenWidth..pos + LenWidth + n])
  }

  /** A read at `pos` returns `p` exactly when a whole frame of `p` starts at `pos`. */
  lemma {:induction false} ReadFrameIff(c: seq<byte>, pos: uint64, p: seq<byte>)
    ensures ReadFrame(c, pos) == Success(p) <==>
      pos + LenWidth <= MaxInt64 && pos + LenWidth + |p| <= |c| &&
      |p| <= MaxUint64 && c[pos..pos + LenWidth + |p|] == Frame(p)
  {
    if ReadFrame(c, pos) == Success(p) {
      var header := c[pos..pos + LenWidth];
      PutUint64OfUint64(header);
      assert c[pos..pos + LenWidth + |p|] == header + p;
    }
    if pos + LenWidth <= MaxInt64 && pos + LenWidth + |p| <= |c| &&
       |p| <= MaxUint64 && c[pos..pos + LenWidth + |p|] == Frame(p)
    {
      assert c[pos..pos + LenWidth] == Frame(p)[..LenWidth] == PutUint64(|p|);
      Uint64OfPutUint64(|p|);
      assert c[pos + LenWidth..pos + LenWidth + |p|] == Frame(p)[LenWidth..] == p;
    }
  }

  /** Round trip: the frame appended at the end of `c` reads back as its payload. */
  lemma ReadFrameAppended(c: seq<byte>, p: seq<byte>)
    requires |c| + LenWidth + |p| <= MaxFileSize
    ensures ReadFrame(c + Frame(p), |c|) == Success(p)
  {
    var c' := c + Frame(p);
    assert c'[|c|..|c| + LenWidth + |p|] == Frame(p);
    ReadFrameIff(c', |c|, p);
  }

  /** Appending bytes never changes what an earlier successful read returns. */
  lemma ReadFrameStable(c: seq<byte>, extra: seq<byte>, pos: uint64)
    requires ReadFrame(c, pos).Success?
    ensures ReadFrame(c + extra, pos) == ReadFrame(c, pos)
  {
    var p := ReadFrame(c, pos).value;
    ReadFrameIff(c, pos, p);
    assert (c + extra)[pos..pos + LenWidth + |p|] == c[pos..pos + LenWidth + |p|];
    ReadFrameIff(c + extra, pos, p);
  }

  class Store {
    /** The file's bytes followed by the bytes still in the write buffer. */
    var contents: seq<byte>
    /** Bytes written so far; where the next frame will start. */
    var size: uint64
    /** The buffered writer's error is sticky: once a write or flush fails, all later ones do. */
    var failed: bool
    var closed: bool

    ghost predicate Valid()
      reads this
    {
      size == |contents| <= MaxFileSize
    }

    /** `newStore`: a store over a file already holding `existing`; appends continue after it. */
    constructor (existing: seq<byte>)
      requires |existing| <= MaxFileSize
      ensures Valid()
      ensures contents == existing && size == |existing|
      ensures !failed && !closed
    {
      contents := existing;
      size := |existing|;
      failed := false;
      closed := false;
    }

    /**
     * Writes the frame of `p` at the end. On success returns the bytes written and the
     * position the frame starts at; on failure returns (0, 0) and leaves the size alone.
     */
    method Append(p: seq<byte>, fault: WriteFault) returns (n: uint64, pos: uint64, err: Option<Error>)
      requires Valid()
      modifies this
      ensures Valid() && closed == old(closed)
      ensures err.None? <==>
        !old(failed) && fault == NoFault && old(size) + LenWidth + |p| <= MaxFileSize
      ensures err.None? ==>
        pos == old(size) && n == LenWidth + |p| && size == old(size) + n &&
        contents == old(contents) + Frame(p) && !failed
      ensures err.Some? ==>
        n == 0 && pos == 0 && size == old(size) && contents == old(contents) && failed
    {
      pos := size;
      if failed || fault == HeaderFails {
        failed := true;
        return 0, 0, Some(WriteFailed);
      }
      if fault == PayloadFails {
        failed := true;
        return 0, 0, Some(WriteFailed);
      }
      if size + LenWidth + |p| > MaxFileSize {
        failed := true;
        return 0, 0, Some(FileTooLarge);
      }
      var header := PutUint64(|p|);
      contents := contents + header + p;
      var w := |p| + LenWidth;
      size := size + w;
      return w, pos, None;
    }

    /**
     * Flushes, then returns the payload of the frame that starts at `pos`. Once the file is
     * closed the flush has nothing to write, and the file refuses the read.
     */
    method Read(pos: uint64, flushFails: bool) returns (r: Result<seq<byte>, Error>)
      requires Valid()
      modifies this
      ensures Valid()
      ensures contents == old(contents) && size == old(size) && closed == old(closed)
      ensures failed == (old(failed) || flushFails)
      ensures r == if failed then Failure(FlushFailed)
                   else if closed then Failure(FileClosed)
                   else ReadFrame(contents, pos)
    {
      if failed || flushFails {
        failed := true;
        return Failure(FlushFailed);
      }
      if closed {
        return Failure(FileClosed);
      }
      var (header, err) := FileReadAt(contents, LenWidth, ToInt64(pos));
      if err.Some? {
        return Failure(err.value);
      }
      assert header == contents[pos..pos + LenWidth];
      var n := Uint64(header);
      var (b, err') := FileReadAt(contents, n, ToInt64(Wrap64(pos + LenWidth)));
      if err'.Some? {
        return Failure(err'.value);
      }
      return Success(b);
    }

    /**
     * Flushes, then copies into `p` the bytes at `off`, as many as exist; reports io.EOF
     * when it could not fill `p`. No framing is involved. A closed file refuses the read.
     */
    method ReadAt(p: array<byte>, off: int64, flushFails: bool) returns (n: nat, err: Option<Error>)
      requires Valid()
      modifies this, p
      ensures Valid()
      ensures contents == old(contents) && size == old(size) && closed == old(closed)
      ensures failed == (old(failed) || flushFails)
      ensures failed ==> n == 0 && err == Some(FlushFailed) && p[..] == old(p[..])
      ensures !failed && closed ==> n == 0 && err == Some(FileClosed) && p[..] == old(p[..])
      ensures !failed && !closed && off < 0 ==> n == 0 && err == Some(NegativeOffset) && p[..] == old(p[..])
      ensures !failed && !closed && 0 <= off ==>
        n == (if off < |contents| then Min(p.Length, |contents| - off) else 0) &&
        (n > 0 ==> p[..n] == contents[off..off + n]) && p[n..] == old(p[n..]) &&
        (err == None <==> n == p.Length) && (err.Some? ==> err == Some(Eof))
    {
      if failed || flushFails {
        failed := true;
        return 0, Some(FlushFailed);
      }
      if closed {
        return 0, Some(FileClosed);
      }
      var (got, e) := FileReadAt(contents, p.Length, off);
      forall i | 0 <= i < |got| {
        p[i] := got[i];
      }
      return |got|, e;
    }

    /** Flushes the buffer, then closes the file; closing a closed file fails. */
    method Close(flushFails: bool, closeFails: bool) returns (err: Option<Error>)
      requires Valid()
      modifies this
      ensures Valid()
      ensures contents == old(contents) && size == old(size)
      ensures failed == (old(failed) || flushFails)
      ensures failed ==> err == Some(FlushFailed) && closed == old(closed)
      ensures !failed ==> closed && err == (if closeFails || old(closed) then Some(CloseFailed) else None)
    {
      if failed || flushFails {
        failed := true;
        return Some(FlushFailed);
      }
      err := if closeFails || closed then Some(CloseFailed) else None;
      closed := true;
    }
  }
}
