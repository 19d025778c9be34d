/**
 * Unsigned little-endian integers over bytes: `u32::to_le_bytes`,
 * `u32::from_le_bytes` and the truncating cast `as u32`.
 */
module LittleEndian {

  /** An octet (`u8`). */
  type Byte = b: int | 0 <= b < 0x100

  const U32_LIMIT: nat := 0x1_0000_0000

  /** A `u32` value. */
  type U32 = n: int | 0 <= n < U32_LIMIT

  /** 256 to the power `width`: the number of values `width` bytes can hold. */
  function Pow256(width: nat): (p: nat)
    ensures p > 0
  {
    if width == 0 then 1 else 0x100 * Pow256(width - 1)
  }

  /** The `width` low-order bytes of `n`, least significant first. */
  function ToLe(n: nat, width: nat): (bs: seq<Byte>)
    ensures |bs| == width
  {
    if width == 0 then [] else [n % 0x100] + ToLe(n / 0x100, width - 1)
  }

  /** The number whose little-endian bytes are `bs`; it fits in `|bs|` bytes. */
  function FromLe(bs: seq<Byte>): (n: nat)
    ensures n < Pow256(|bs|)
  {
    if bs == [] then 0 else bs[0] + 0x100 * FromLe(bs[1..])
  }

  /** Decoding the bytes of a number that fits gives the number back. */
  lemma {:induction false} FromToLe(n: nat, width: nat)
    requires n < Pow256(width)
    ensures FromLe(ToLe(n, width)) == n
  {
    if width > 0 {
      var q, r := n / 0x100, n % 0x100;
      assert n == 0x100 * q + r;
      assert q < Pow256(width - 1);
      FromToLe(q, width - 1);
      assert ToLe(n, width)[1..] == ToLe(q, width - 1);
    }
  }

  /** Encoding the value of some bytes, at their width, gives the bytes back. */
  lemma {:induction false} ToFromLe(bs: seq<Byte>)
    ensures ToLe(FromLe(bs), |bs|) == bs
  {
    if bs != [] {
      var rest := FromLe(bs[1..]);
      var n := bs[0] + 0x100 * rest;
      assert n % 0x100 == bs[0] && n / 0x100 == rest;
      ToFromLe(bs[1..]);
      assert ToLe(n, |bs|) == [bs[0]] + bs[1..];
    }
  }

  /** The first `width` bytes of a wider encoding are the narrower encoding. */
  lemma {:induction false} ToLePrefix(n: nat, width: nat)
    ensures ToLe(n, width + 1)[..width] == ToLe(n, width)
  {
    if width > 0 {
      ToLePrefix(n / 0x100, width - 1);
      assert ToLe(n, width + 1)[..width] == [n % 0x100] + ToLe(n / 0x100, width)[..width - 1];
    }
  }

  /** `n.to_le_bytes()` for a `u32` n. */
  function U32ToLe(n: U32): (bs: seq<Byte>)
    ensures |bs| == 4
  {
    ToLe(n, 4)
  }

  /** `u32::from_le_bytes(bs)`. */
  function U32FromLe(bs: seq<Byte>): (n: U32)
    requires |bs| == 4
  {
    FromLe(bs)
  }

  /** `from_le_bytes` undoes `to_le_bytes`. */
  lemma U32FromToLe(n: U32)
    ensures U32FromLe(U32ToLe(n)) == n
  {
    FromToLe(n, 4);
  }

  /** `to_le_bytes` undoes `from_le_bytes`: every 4 bytes are the prefix of exactly one length. */
  lemma U32ToFromLe(bs: seq<Byte>)
    requires |bs| == 4
    ensures U32ToLe(U32FromLe(bs)) == bs
  {
    ToFromLe(bs);
  }

  /** The cast `n as u32`, which keeps the 32 low-order bits. */
  function AsU32(n: nat): (m: U32)
    ensures n < U32_LIMIT ==> m == n
  {
    n % U32_LIMIT
  }
}
