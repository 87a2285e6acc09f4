/**
 * The log record (`api.Record`: a value and the offset the segment stamps on it) and its
 * serialisation. Protocol-buffer encoding is a foreign library; it is stood in for by a
 * fixed injective encoding (the offset's eight big-endian bytes, then the value) whose
 * round trip is proved here rather than assumed.
 */
module Records {
  import opened Ints
  import opened Wrappers
  import opened Errors
  import opened BigEndian

  datatype Record = Record(value: seq<byte>, offset: uint64)

  /** Stand-in for `proto.Marshal`. */
  function Marshal(r: Record): seq<byte>
  {
    PutUint64(r.offset) + r.value
  }

  /** Stand-in for `proto.Unmarshal`: fails on bytes too short to hold an offset. */
  function Unmarshal(b: seq<byte>): Result<Record, Error>
  {
    if |b| < 8 then Failure(Corrupt) else Success(Record(b[8..], Uint64(b[..8])))
  }

  /** Unmarshal recovers every marshalled record exactly. */
  lemma UnmarshalMarshal(r: Record)
    ensures Unmarshal(Marshal(r)) == Success(r)
  {
    var b := Marshal(r);
    assert b[..8] == PutUint64(r.offset) && b[8..] == r.value;
    Uint64OfPutUint64(r.offset);
  }

  /** Marshal is injective: two records with the same bytes are the same record. */
  lemma MarshalInjective(a: Record, b: Record)
    requires Marshal(a) == Marshal(b)
    ensures a == b
  {
    UnmarshalMarshal(a);
    UnmarshalMarshal(b);
  }
}
