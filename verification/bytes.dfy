/** Bytes and the little-endian integer framing the `.backup` format uses. */
module Bytes {

  type Byte = x: int | 0 <= x < 256

  /** 256^n: one more than the largest value an n-byte integer holds. */
  function Pow256(n: nat): (r: nat)
    ensures r >= 1
  {
    if n == 0 then 1 else 256 * Pow256(n - 1)
  }

  const U16Limit: nat := 0x1_0000
  const U32Limit: nat := 0x1_0000_0000
  const U64Limit: nat := 0x1_0000_0000_0000_0000

  function Min(a: nat, b: nat): nat { if a <= b then a else b }

  /** A Rust `u64`. */
  type U64 = n: nat | n < U64Limit

  /** `to_le_bytes` on an unsigned integer `width` bytes wide. */
  function ToLE(x: nat, width: nat): (r: seq<Byte>)
    requires x < Pow256(width)
    ensures |r| == width
    ensures width > 0 ==> r[0] == x % 256
  {
    if width == 0 then [] else [x % 256] + ToLE(x / 256, width - 1)
  }

  /** `from_le_bytes`: the unsigned integer whose little-endian bytes are `s`. */
  function FromLE(s: seq<Byte>): (r: nat)
    ensures r < Pow256(|s|)
  {
    if |s| == 0 then 0 else s[0] + 256 * FromLE(s[1..])
  }

  lemma {:induction false} FromLEToLE(x: nat, width: nat)
    requires x < Pow256(width)
    ensures FromLE(ToLE(x, width)) == x
  {
    if width > 0 {
      FromLEToLE(x / 256, width - 1);
      assert ToLE(x, width)[1..] == ToLE(x / 256, width - 1);
    }
  }

  lemma {:induction false} ToLEFromLE(s: seq<Byte>)
    ensures ToLE(FromLE(s), |s|) == s
  {
    if |s| > 0 {
      ToLEFromLE(s[1..]);
      assert (s[0] + 256 * FromLE(s[1..])) / 256 == FromLE(s[1..]);
    }
  }

  /** Two byte strings of one width decode to the same integer only if they are equal. */
  lemma FromLEInjective(a: seq<Byte>, b: seq<Byte>)
    requires |a| == |b|
    requires FromLE(a) == FromLE(b)
    ensures a == b
  {
    ToLEFromLE(a);
    ToLEFromLE(b);
  }

  lemma Pow256Values()
    ensures Pow256(2) == U16Limit
    ensures Pow256(4) == U32Limit
    ensures Pow256(8) == U64Limit
  {
  }
}
