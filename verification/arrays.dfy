/** Length-prefixed arrays (crates/infrarust_protocol/src/types/arrays.rs):
    a VarInt count followed by that many raw bytes (`ByteArray`) or that
    many encoded elements (`PrefixedArray<T>`). */
module Arrays {
  import opened Bytes
  import opened Wrappers
  import opened Io
  import VarInt
  import Primitives

  /** `len as i32`: a length cast to the VarInt it is written as. */
  function LengthPrefix(n: nat): (v: i32)
    ensures n < 0x8000_0000 ==> v == n
  {
    AsI32(n % TWO_32)
  }

  /** `ByteArray::write_to` */
  function WriteByteArray(data: seq<byte>): (r: Result<seq<byte>, IoError>)
    ensures |data| < 0x8000_0000 ==> (r.Ok? <==> |data| < VarInt.THREE_BYTE_LIMIT)
    ensures r.Ok? ==> r.value == VarInt.ToBytes(LengthPrefix(|data|)) + data
  {
    var prefix :- VarInt.Write(LengthPrefix(|data|));
    Ok(prefix + data)
  }

  /** `ByteArray::read_from` */
  function ReadByteArray(input: seq<byte>): (r: Result<Decoded<seq<byte>>, IoError>)
    ensures r.Ok? ==> r.value.size <= |input|
  {
    var len :- VarInt.Read(input);
    if len.value < 0 then Err(InvalidData("ByteArray length cannot be negative"))
    else
      var buffer :- ReadExact(input[len.size..], len.value);
      Ok(Decoded(buffer, len.size + len.value))
  }

  /** The VarInt prefix of a framed payload reads back as the payload's
      length, and the payload follows it. */
  lemma FramedPayload(bytes: seq<byte>, rest: seq<byte>)
    requires |bytes| < VarInt.THREE_BYTE_LIMIT
    ensures var prefix := VarInt.ToBytes(|bytes|);
            var input := prefix + bytes + rest;
            VarInt.Read(input) == Ok(Decoded(|bytes| as i32, |prefix|))
            && input[|prefix|..|prefix| + |bytes|] == bytes
  {
    var prefix := VarInt.ToBytes(|bytes|);
    var input := prefix + bytes + rest;
    assert input == prefix + (bytes + rest);
    VarInt.ReadToBytes(|bytes|, bytes + rest);
    assert input[|prefix|..|prefix| + |bytes|] == bytes;
  }

  /** What `ByteArray::write_to` writes reads back as the same bytes, and
      the count read is the count written. */
  lemma ByteArrayRoundTrip(data: seq<byte>, rest: seq<byte>)
    requires |data| < VarInt.THREE_BYTE_LIMIT
    ensures ReadByteArray(WriteByteArray(data).value + rest)
         == Ok(Decoded(data, |WriteByteArray(data).value|))
  {
    var prefix := VarInt.ToBytes(|data|);
    var input := prefix + data + rest;
    assert input == prefix + (data + rest);
    VarInt.ReadToBytes(|data|, data + rest);
    assert input[|prefix|..] == data + rest;
    assert (data + rest)[..|data|] == data;
  }

  /** A negative count is refused before any payload is read. */
  lemma ByteArrayRejectsNegativeLength(input: seq<byte>)
    requires VarInt.Read(input).Ok? && VarInt.Read(input).value.value < 0
    ensures ReadByteArray(input) == Err(InvalidData("ByteArray length cannot be negative"))
  {
  }

  /** The element codec a `PrefixedArray<T>` is instantiated with reads
      back what it writes, whatever follows. */
  ghost predicate ElementRoundTrip<T(!new)>(write: T -> Result<seq<byte>, IoError>,
                                      read: seq<byte> -> Result<Decoded<T>, IoError>)
  {
    forall x, rest :: write(x).Ok? ==> read(write(x).value + rest) == Ok(Decoded(x, |write(x).value|))
  }

  /** The loop of `PrefixedArray::write_to` over the elements. */
  function WriteItems<T>(items: seq<T>, write: T -> Result<seq<byte>, IoError>): Result<seq<byte>, IoError>
  {
    if |items| == 0 then Ok([])
    else
      var head :- write(items[0]);
      var tail :- WriteItems(items[1..], write);
      Ok(head + tail)
  }

  /** `PrefixedArray::write_to` */
  function WritePrefixedArray<T>(items: seq<T>, write: T -> Result<seq<byte>, IoError>)
    : (r: Result<seq<byte>, IoError>)
    ensures r.Ok? ==> VarInt.ToBytes(LengthPrefix(|items|)) <= r.value
  {
    var prefix :- VarInt.Write(LengthPrefix(|items|));
    var body :- WriteItems(items, write);
    Ok(prefix + body)
  }

  /** The loop of `PrefixedArray::read_from`: `count` elements in a row.
      An element reader that claims more bytes than it was given has read
      past the end of the input. */
  function ReadItems<T>(input: seq<byte>, count: nat, read: seq<byte> -> Result<Decoded<T>, IoError>)
    : (r: Result<Decoded<seq<T>>, IoError>)
    ensures r.Ok? ==> |r.value.value| == count && r.value.size <= |input|
    decreases count
  {
    if count == 0 then Ok(Decoded([], 0))
    else
      var first :- read(input);
      var _ :- if first.size <= |input| then Ok(()) else Err(UnexpectedEof);
      var others :- ReadItems(input[first.size..], count - 1, read);
      Ok(Decoded([first.value] + others.value, first.size + others.size))
  }

  /** `PrefixedArray::read_from`.  The count is not checked for being
      negative before `Vec::with_capacity(length as usize)`: a negative
      count becomes a capacity near 2^64, and the allocation panics with
      "capacity overflow" (every protocol element type has a size). */
  function ReadPrefixedArray<T>(input: seq<byte>, read: seq<byte> -> Result<Decoded<T>, IoError>)
    : (r: Result<Decoded<seq<T>>, IoError>)
    ensures VarInt.Read(input).Err? ==> r == Err(VarInt.Read(input).error)
    ensures VarInt.Read(input).Ok? && VarInt.Read(input).value.value < 0 ==> r == Err(Aborted("capacity overflow"))
    ensures r.Ok? ==> VarInt.Read(input).Ok? && |r.value.value| == VarInt.Read(input).value.value
    ensures r.Ok? ==> VarInt.Read(input).value.size <= r.value.size <= |input|
  {
    var len :- VarInt.Read(input);
    if len.value < 0 then Err(Aborted("capacity overflow"))
    else
      var items :- ReadItems(input[len.size..], len.value, read);
      Ok(Decoded(items.value, len.size + items.size))
  }

  /** The count -1 (the five bytes FF FF FF FF 0F) makes the reader
      abort, whatever follows it. */
  lemma NegativeCountAborts<T>(rest: seq<byte>, read: seq<byte> -> Result<Decoded<T>, IoError>)
    ensures VarInt.ToBytes(-1) == [0xFF, 0xFF, 0xFF, 0xFF, 0x0F]
    ensures ReadPrefixedArray(VarInt.ToBytes(-1) + rest, read) == Err(Aborted("capacity overflow"))
  {
    VarInt.MinusOneBytes();
    VarInt.ReadToBytes(-1, rest);
  }

  lemma ElementAt<T(!new)>(write: T -> Result<seq<byte>, IoError>,
                           read: seq<byte> -> Result<Decoded<T>, IoError>, x: T, rest: seq<byte>)
    requires ElementRoundTrip(write, read) && write(x).Ok?
    ensures read(write(x).value + rest) == Ok(Decoded(x, |write(x).value|))
  {
  }

  /** One step of the element loop: a first element read from the front,
      then the others from what follows it. */
  lemma ReadItemsStep<T>(input: seq<byte>, count: nat, read: seq<byte> -> Result<Decoded<T>, IoError>,
                         x: T, n: nat, others: seq<T>, m: nat)
    requires count > 0
    requires read(input) == Ok(Decoded(x, n)) && n <= |input|
    requires ReadItems(input[n..], count - 1, read) == Ok(Decoded(others, m))
    ensures ReadItems(input, count, read) == Ok(Decoded([x] + others, n + m))
  {
  }

  lemma {:induction false} ReadWriteItems<T(!new)>(items: seq<T>, rest: seq<byte>,
                                            write: T -> Result<seq<byte>, IoError>,
                                            read: seq<byte> -> Result<Decoded<T>, IoError>)
    requires ElementRoundTrip(write, read)
    requires WriteItems(items, write).Ok?
    ensures ReadItems(WriteItems(items, write).value + rest, |items|, read)
         == Ok(Decoded(items, |WriteItems(items, write).value|))
  {
    hide *;
    if |items| == 0 {
      assert items == [];
      ItemsNil(WriteItems(items, write).value + rest, write, read);
    } else {
      WriteItemsCons(items, write);
      var head := write(items[0]).value;
      var tail := WriteItems(items[1..], write).value;
      var input := head + tail + rest;
      assert WriteItems(items, write).value + rest == input;
      ElementAt(write, read, items[0], tail + rest);
      ReadWriteItems(items[1..], rest, write, read);
      assert input == head + (tail + rest) && input[|head|..] == tail + rest;
      ReadItemsStep(input, |items|, read, items[0], |head|, items[1..], |tail|);
      assert items == [items[0]] + items[1..];
    }
  }

  lemma ItemsNil<T>(input: seq<byte>, write: T -> Result<seq<byte>, IoError>,
                    read: seq<byte> -> Result<Decoded<T>, IoError>)
    ensures WriteItems([], write) == Ok([])
    ensures ReadItems(input, 0, read) == Ok(Decoded([], 0))
  {
  }

  lemma WriteItemsCons<T>(items: seq<T>, write: T -> Result<seq<byte>, IoError>)
    requires |items| > 0 && WriteItems(items, write).Ok?
    ensures write(items[0]).Ok? && WriteItems(items[1..], write).Ok?
    ensures WriteItems(items, write).value
         == write(items[0]).value + WriteItems(items[1..], write).value
  {
  }


  lemma ReadPrefixedArrayOf<T>(input: seq<byte>, read: seq<byte> -> Result<Decoded<T>, IoError>,
                               prefixSize: nat, items: seq<T>, size: nat)
    requires |items| < 0x8000_0000 && prefixSize <= |input|
    requires VarInt.Read(input) == Ok(Decoded(|items| as i32, prefixSize))
    requires ReadItems(input[prefixSize..], |items|, read) == Ok(Decoded(items, size))
    ensures ReadPrefixedArray(input, read) == Ok(Decoded(items, prefixSize + size))
  {
  }

  /** A written array reads back element for element, the empty array
      included, consuming exactly the bytes written. */
  lemma PrefixedArrayRoundTrip<T(!new)>(items: seq<T>, rest: seq<byte>,
                                  write: T -> Result<seq<byte>, IoError>,
                                  read: seq<byte> -> Result<Decoded<T>, IoError>)
    requires ElementRoundTrip(write, read)
    requires |items| < VarInt.THREE_BYTE_LIMIT && WritePrefixedArray(items, write).Ok?
    ensures ReadPrefixedArray(WritePrefixedArray(items, write).value + rest, read)
         == Ok(Decoded(items, |WritePrefixedArray(items, write).value|))
  {
    hide *;
    VarInt.ThreeByteLimit();
    WritePrefixedArrayParts(items, write);
    var prefix := VarInt.ToBytes(|items|);
    var body := WriteItems(items, write).value;
    var input := prefix + (body + rest);
    assert WritePrefixedArray(items, write).value + rest == input;
    VarInt.ReadToBytes(|items|, body + rest);
    ReadWriteItems(items, rest, write, read);
    AfterPrefix(prefix, body + rest);
    ReadPrefixedArrayOf(input, read, |prefix|, items, |body|);
  }

  lemma WritePrefixedArrayParts<T>(items: seq<T>, write: T -> Result<seq<byte>, IoError>)
    requires |items| < VarInt.THREE_BYTE_LIMIT && WritePrefixedArray(items, write).Ok?
    ensures WriteItems(items, write).Ok?
    ensures WritePrefixedArray(items, write).value
         == VarInt.ToBytes(|items|) + WriteItems(items, write).value
  {
  }

  function WriteIntElement(v: i32): Result<seq<byte>, IoError> {
    Ok(Primitives.WriteInt(v))
  }

  /** The `Int` codec satisfies both requirements on element codecs, so
      `PrefixedArray<Int>` round-trips. */
  lemma IntElementCodec()
    ensures ElementRoundTrip(WriteIntElement, Primitives.ReadInt)
  {
    forall x: i32, rest: seq<byte> {
      Primitives.IntRoundTrip(x, rest);
    }
  }
}
