/** Fixed-width values shared by every crate of the node: bytes, 32-byte
    hashes (`B256`), unsigned 64-bit integers, and the big-endian byte
    encoding of a `u64` that block hashing relies on. */
module Primitives {

  type byte = x: int | 0 <= x < 256

  /** A `Vec<u8>`. */
  type Bytes = seq<byte>

  const HASH_LEN: nat := 32

  /** A `B256` value: exactly 32 bytes. */
  type Hash = h: Bytes | |h| == HASH_LEN witness seq(32, _ => 0)

  /** `B256::ZERO`. */
  const ZERO_HASH: Hash := [
    0, 0, 0, 0, 0, 0, 0, 0, 0, 0, 0, 0, 0, 0, 0, 0,
    0, 0, 0, 0, 0, 0, 0, 0, 0, 0, 0, 0, 0, 0, 0, 0]

  const U64_MAX: int := 0xFFFF_FFFF_FFFF_FFFF

  type u64 = x: int | 0 <= x <= U64_MAX

  datatype Option<T> = None | Some(value: T)

  datatype Result<T, E> = Ok(value: T) | Err(error: E)

  /** 256 to the power k: the number of values that fit in k bytes. */
  function Pow256(k: nat): (r: nat)
    ensures r >= 1
  {
    if k == 0 then 1 else 256 * Pow256(k - 1)
  }

  lemma Pow256Eight()
    ensures Pow256(8) == U64_MAX + 1
  {
  }

  /** The `len` low-order bytes of n, most significant first. */
  function ToBeBytes(n: nat, len: nat): (r: Bytes)
    ensures |r| == len
  {
    if len == 0 then [] else ToBeBytes(n / 256, len - 1) + [n % 256]
  }

  /** The number whose big-endian encoding is bs. */
  function FromBeBytes(bs: Bytes): (n: nat)
    ensures n < Pow256(|bs|)
  {
    if |bs| == 0 then 0
    else
      var hi := FromBeBytes(bs[..|bs| - 1]);
      assert hi <= Pow256(|bs| - 1) - 1;
      hi * 256 + bs[|bs| - 1]
  }

  /** Decoding undoes encoding whenever n fits in len bytes. */
  lemma {:induction false} FromToBeBytes(n: nat, len: nat)
    requires n < Pow256(len)
    ensures FromBeBytes(ToBeBytes(n, len)) == n
  {
    if len > 0 {
      var bs := ToBeBytes(n, len);
      assert bs[..len - 1] == ToBeBytes(n / 256, len - 1);
      assert n / 256 < Pow256(len - 1);
      FromToBeBytes(n / 256, len - 1);
      assert n == (n / 256) * 256 + n % 256;
    }
  }

  /** Encoding undoes decoding: every byte string of length len is the
      encoding of exactly one number below Pow256(len). */
  lemma {:induction false} ToFromBeBytes(bs: Bytes)
    ensures ToBeBytes(FromBeBytes(bs), |bs|) == bs
  {
    if |bs| > 0 {
      var n := FromBeBytes(bs);
      var hi := FromBeBytes(bs[..|bs| - 1]);
      assert n / 256 == hi && n % 256 == bs[|bs| - 1];
      ToFromBeBytes(bs[..|bs| - 1]);
      assert bs == bs[..|bs| - 1] + [bs[|bs| - 1]];
    }
  }

  /** `u64::to_be_bytes`: eight bytes, most significant first. */
  function U64ToBeBytes(n: u64): (r: Bytes)
    ensures |r| == 8
    ensures FromBeBytes(r) == n
  {
    Pow256Eight();
    FromToBeBytes(n, 8);
    ToBeBytes(n, 8)
  }

  /** `u64::from_be_bytes`, the inverse of U64ToBeBytes. */
  function U64FromBeBytes(bs: Bytes): (n: u64)
    requires |bs| == 8
    ensures U64ToBeBytes(n) == bs
  {
    Pow256Eight();
    ToFromBeBytes(bs);
    FromBeBytes(bs)
  }
}
