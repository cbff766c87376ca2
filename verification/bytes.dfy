/** Fixed-width integers and their big-endian byte encodings.  Rust's
    machine integers are modelled as ranges of Dafny's unbounded `int`;
    every conversion between signed and unsigned widths (`as u32`, `as i16`)
    is written out as explicit two's-complement arithmetic. */
module Bytes {

  type byte = b: int | 0 <= b < 0x100
  type i8 = v: int | -0x80 <= v < 0x80
  type i16 = v: int | -0x8000 <= v < 0x8000
  type u16 = v: int | 0 <= v < 0x1_0000
  type i32 = v: int | -0x8000_0000 <= v < 0x8000_0000
  type u32 = v: int | 0 <= v < 0x1_0000_0000
  type i64 = v: int | -0x8000_0000_0000_0000 <= v < 0x8000_0000_0000_0000
  type u64 = v: int | 0 <= v < 0x1_0000_0000_0000_0000

  /** 256 to the power n: the number of values n bytes can hold. */
  function Pow256(n: nat): (r: nat)
    ensures r >= 1
  {
    if n == 0 then 1 else 0x100 * Pow256(n - 1)
  }

  /** The n-byte big-endian encoding of an unsigned value
      (`to_be_bytes` on a width of n bytes). */
  function ToBe(v: nat, n: nat): (r: seq<byte>)
    requires v < Pow256(n)
    ensures |r| == n
  {
    if n == 0 then [] else ToBe(v / 0x100, n - 1) + [v % 0x100]
  }

  /** The unsigned value of a big-endian byte string (`from_be_bytes`). */
  function FromBe(bs: seq<byte>): (v: nat)
    ensures v < Pow256(|bs|)
  {
    if |bs| == 0 then 0 else FromBe(bs[..|bs| - 1]) * 0x100 + bs[|bs| - 1]
  }

  lemma {:induction false} FromBeToBe(v: nat, n: nat)
    requires v < Pow256(n)
    ensures FromBe(ToBe(v, n)) == v
  {
    if n > 0 {
      var r := ToBe(v, n);
      assert r[..|r| - 1] == ToBe(v / 0x100, n - 1);
      FromBeToBe(v / 0x100, n - 1);
    }
  }

  lemma {:induction false} ToBeFromBe(bs: seq<byte>)
    ensures ToBe(FromBe(bs), |bs|) == bs
  {
    if |bs| > 0 {
      var init := bs[..|bs| - 1];
      ToBeFromBe(init);
      assert FromBe(bs) / 0x100 == FromBe(init);
      assert bs == init + [bs[|bs| - 1]];
    }
  }

  const TWO_16: nat := 0x1_0000
  const TWO_32: nat := 0x1_0000_0000
  const TWO_64: nat := 0x1_0000_0000_0000_0000

  /** `v as u8` for an `i8` v. */
  function AsU8(v: i8): (r: byte)
    ensures r % 0x100 == v % 0x100
  {
    if v < 0 then v + 0x100 else v
  }

  /** `b as i8` for a byte b. */
  function AsI8(b: byte): (r: i8)
    ensures r % 0x100 == b
  {
    if b >= 0x80 then b - 0x100 else b
  }

  lemma I8U8Inverse(v: i8, b: byte)
    ensures AsI8(AsU8(v)) == v
    ensures AsU8(AsI8(b)) == b
  {
  }

  /** `v as u32` for an `i32` v: the same 32 bits read as unsigned. */
  function AsU32(v: i32): (r: u32)
    ensures r % TWO_32 == v % TWO_32
  {
    if v < 0 then v + TWO_32 else v
  }

  /** `u as i32` for a `u32` u: the same 32 bits read as two's complement. */
  function AsI32(u: u32): (r: i32)
    ensures r % TWO_32 == u
  {
    if u >= TWO_32 / 2 then u - TWO_32 else u
  }

  /** `v as u64` for an `i64` v. */
  function AsU64(v: i64): (r: u64)
    ensures r % TWO_64 == v % TWO_64
  {
    if v < 0 then v + TWO_64 else v
  }

  /** `u as i64` for a `u64` u. */
  function AsI64(u: u64): (r: i64)
    ensures r % TWO_64 == u
  {
    if u >= TWO_64 / 2 then u - TWO_64 else u
  }

  lemma I32U32Inverse(v: i32, u: u32)
    ensures AsI32(AsU32(v)) == v
    ensures AsU32(AsI32(u)) == u
  {
  }

  lemma I64U64Inverse(v: i64, u: u64)
    ensures AsI64(AsU64(v)) == v
    ensures AsU64(AsI64(u)) == u
  {
  }

  /** `u16::to_be_bytes` */
  function U16ToBe(v: u16): (r: seq<byte>)
    ensures |r| == 2 && FromBe(r) == v
  {
    [v / 0x100, v % 0x100]
  }

  /** `i32::to_be_bytes` */
  function I32ToBe(v: i32): (r: seq<byte>)
    ensures |r| == 4
  {
    ToBe(AsU32(v), 4)
  }

  /** `i32::from_be_bytes` */
  function I32FromBe(bs: seq<byte>): (r: i32)
    requires |bs| == 4
  {
    AsI32(FromBe(bs))
  }

  lemma I32RoundTrip(v: i32)
    ensures I32FromBe(I32ToBe(v)) == v
  {
    FromBeToBe(AsU32(v), 4);
  }
}
