/** The fixed-width wire types the handshake is built from
    (crates/infrarust_protocol/src/types/primitives.rs): `Byte` is one
    two's-complement byte, `UnsignedShort` two big-endian bytes and `Int`
    four. */
module Primitives {
  import opened Bytes
  import opened Wrappers
  import opened Io

  function WriteByte(v: i8): (r: seq<byte>)
    ensures |r| == 1
  {
    [AsU8(v)]
  }

  function ReadByte(input: seq<byte>): (r: Result<Decoded<i8>, IoError>)
    ensures r.Ok? <==> |input| >= 1
    ensures r.Ok? ==> r.value.size == 1
    ensures r.Err? ==> r.error == UnexpectedEof
  {
    var buf :- ReadExact(input, 1);
    Ok(Decoded(AsI8(buf[0]), 1))
  }

  lemma ByteRoundTrip(v: i8, rest: seq<byte>)
    ensures ReadByte(WriteByte(v) + rest) == Ok(Decoded(v, 1))
  {
    I8U8Inverse(v, 0);
  }

  function WriteUnsignedShort(v: u16): (r: seq<byte>)
    ensures |r| == 2
  {
    U16ToBe(v)
  }

  function ReadUnsignedShort(input: seq<byte>): (r: Result<Decoded<u16>, IoError>)
    ensures r.Ok? <==> |input| >= 2
    ensures r.Ok? ==> r.value.size == 2
    ensures r.Err? ==> r.error == UnexpectedEof
  {
    var buf :- ReadExact(input, 2);
    Ok(Decoded(FromBe(buf), 2))
  }

  lemma UnsignedShortRoundTrip(v: u16, rest: seq<byte>)
    ensures ReadUnsignedShort(WriteUnsignedShort(v) + rest) == Ok(Decoded(v, 2))
  {
    assert (U16ToBe(v) + rest)[..2] == U16ToBe(v);
  }

  function WriteInt(v: i32): (r: seq<byte>)
    ensures |r| == 4
  {
    I32ToBe(v)
  }

  function ReadInt(input: seq<byte>): (r: Result<Decoded<i32>, IoError>)
    ensures r.Ok? <==> |input| >= 4
    ensures r.Ok? ==> r.value.size == 4
    ensures r.Err? ==> r.error == UnexpectedEof
  {
    var buf :- ReadExact(input, 4);
    Ok(Decoded(I32FromBe(buf), 4))
  }

  lemma IntRoundTrip(v: i32, rest: seq<byte>)
    ensures ReadInt(WriteInt(v) + rest) == Ok(Decoded(v, 4))
  {
    assert (I32ToBe(v) + rest)[..4] == I32ToBe(v);
    I32RoundTrip(v);
  }
}
