/** Big-endian encoding of unsigned integers (Go's `binary.BigEndian`). */
module BigEndian {
  import opened Ints

  function Pow256(k: nat): (r: nat)
    ensures r > 0
  {
    if k == 0 then 1 else 256 * Pow256(k - 1)
  }

  lemma Pow256Of8()
    ensures Pow256(8) == TwoTo64
  {
  }

  /** The `width` low-order bytes of `n`, most significant byte first. */
  function Encode(n: nat, width: nat): (s: seq<byte>)
    ensures |s| == width
  {
    if width == 0 then [] else Encode(n / 256, width - 1) + [n % 256]
  }

  /** The number whose big-endian bytes are `s`; it always fits in |s| bytes. */
  function Decode(s: seq<byte>): (n: nat)
    ensures n < Pow256(|s|)
  {
    if s == [] then 0 else Decode(s[..|s| - 1]) * 256 + s[|s| - 1]
  }

  /** Decoding undoes encoding for every number that fits in the width. */
  lemma {:induction false} DecodeEncode(n: nat, width: nat)
    requires n < Pow256(width)
    ensures Decode(Encode(n, width)) == n
  {
    if width > 0 {
      var q, r := n / 256, n % 256;
      var s := Encode(n, width);
      assert s == Encode(q, width - 1) + [r];
      assert s[..width - 1] == Encode(q, width - 1) && s[width - 1] == r;
      DivBound(n, Pow256(width - 1));
      DecodeEncode(q, width - 1);
      assert Decode(s) == q * 256 + r;
    }
  }

  lemma DivBound(n: nat, p: nat)
    requires n < 256 * p
    ensures n / 256 < p && n == n / 256 * 256 + n % 256
  {
  }

  /** Encoding undoes decoding: a byte string is the encoding of its value. */
  lemma {:induction false} EncodeDecode(s: seq<byte>)
    ensures Encode(Decode(s), |s|) == s
  {
    if s != [] {
      var init := s[..|s| - 1];
      var d := Decode(s);
      assert d / 256 == Decode(init) && d % 256 == s[|s| - 1];
      EncodeDecode(init);
      assert s == init + [s[|s| - 1]];
    }
  }

  /** `binary.BigEndian.PutUint64`: the eight bytes of `n`. */
  function PutUint64(n: uint64): (s: seq<byte>)
    ensures |s| == 8
  {
    Encode(n, 8)
  }

  /** `binary.BigEndian.Uint64`: the value of eight bytes. */
  function Uint64(s: seq<byte>): uint64
    requires |s| == 8
  {
    Pow256Of8(); Decode(s)
  }

  lemma Uint64OfPutUint64(n: uint64)
    ensures Uint64(PutUint64(n)) == n
  {
    Pow256Of8();
    DecodeEncode(n, 8);
  }

  lemma PutUint64OfUint64(s: seq<byte>)
    requires |s| == 8
    ensures PutUint64(Uint64(s)) == s
  {
    EncodeDecode(s);
  }
}
