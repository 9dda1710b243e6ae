/** Fixed-width unsigned integers and their big-endian byte encodings, as
    produced by Rust's `to_be_bytes` and consumed by `from_be_bytes`. */
module Bytes {

  type byte = b: int | 0 <= b < 0x100
  type u32 = n: int | 0 <= n < 0x1_0000_0000
  type u64 = n: int | 0 <= n < 0x1_0000_0000_0000_0000

  const U32_LIMIT: nat := 0x1_0000_0000
  const U64_LIMIT: nat := 0x1_0000_0000_0000_0000

  /** 256 to the power `k`: the number of distinct `k`-byte strings. */
  function Pow256(k: nat): (p: nat)
    ensures p >= 1
  {
    if k == 0 then 1 else 256 * Pow256(k - 1)
  }

  lemma Pow256Widths()
    ensures Pow256(4) == U32_LIMIT
    ensures Pow256(8) == U64_LIMIT
  {
  }

  /** The number whose base-256 digits, most significant first, are `bs`. */
  function FromBigEndian(bs: seq<byte>): (n: nat)
    ensures n < Pow256(|bs|)
  {
    if |bs| == 0 then 0 else FromBigEndian(bs[..|bs| - 1]) * 256 + bs[|bs| - 1]
  }

  /** The base-256 digits of `n`, most significant first, padded to
      `width` bytes (Rust's `to_be_bytes` on a `width`-byte integer). */
  function ToBigEndian(n: nat, width: nat): (bs: seq<byte>)
    requires n < Pow256(width)
    ensures |bs| == width
    ensures FromBigEndian(bs) == n
  {
    if width == 0 then []
    else
      var bs := ToBigEndian(n / 256, width - 1) + [n % 256];
      assert bs[..|bs| - 1] == ToBigEndian(n / 256, width - 1);
      bs
  }

  /** A byte string is determined by its width and its big-endian value. */
  lemma {:induction false} ToBigEndianOfFromBigEndian(bs: seq<byte>)
    ensures ToBigEndian(FromBigEndian(bs), |bs|) == bs
  {
    if |bs| > 0 {
      var init := bs[..|bs| - 1];
      var n := FromBigEndian(bs);
      assert n / 256 == FromBigEndian(init);
      assert n % 256 == bs[|bs| - 1];
      ToBigEndianOfFromBigEndian(init);
      assert bs == init + [bs[|bs| - 1]];
    }
  }

  function U32ToBytes(n: u32): (bs: seq<byte>)
    ensures |bs| == 4 && FromBigEndian(bs) == n
  {
    Pow256Widths();
    ToBigEndian(n, 4)
  }

  function U64ToBytes(n: u64): (bs: seq<byte>)
    ensures |bs| == 8 && FromBigEndian(bs) == n
  {
    Pow256Widths();
    ToBigEndian(n, 8)
  }

  function U32FromBytes(bs: seq<byte>): (n: u32)
    requires |bs| == 4
  {
    Pow256Widths();
    FromBigEndian(bs)
  }

  function U64FromBytes(bs: seq<byte>): (n: u64)
    requires |bs| == 8
  {
    Pow256Widths();
    FromBigEndian(bs)
  }

  lemma U32BytesRoundTrip(bs: seq<byte>)
    requires |bs| == 4
    ensures U32ToBytes(U32FromBytes(bs)) == bs
  {
    ToBigEndianOfFromBigEndian(bs);
  }

  lemma U64BytesRoundTrip(bs: seq<byte>)
    requires |bs| == 8
    ensures U64ToBytes(U64FromBytes(bs)) == bs
  {
    ToBigEndianOfFromBigEndian(bs);
  }
}
