/** The Minecraft VarInt: a 32-bit signed integer written in
    little-endian groups of seven bits, each byte's top bit set while more
    groups follow (crates/infrarust_protocol/src/types/var_numbers.rs).
    Writing refuses any value whose magnitude needs more than three groups;
    reading accepts up to five. */
module VarInt {
  import opened Bytes
  import opened Wrappers
  import opened Io

  /** 2^21, the first magnitude that no longer fits three groups. */
  const THREE_BYTE_LIMIT: int := 0x20_0000

  lemma ThreeByteLimit()
    ensures THREE_BYTE_LIMIT == 0x20_0000
  {
  }

  /** The magnitude `exceeds_three_bytes` and `len` measure: `v` for a
      non-negative v, otherwise `(v as u32).wrapping_neg()`. */
  function Magnitude(v: i32): (m: u32)
    ensures v >= 0 ==> m == v
    ensures v < 0 ==> m + v == 0
  {
    if v >= 0 then v else (TWO_32 - AsU32(v)) % TWO_32
  }

  predicate ExceedsThreeBytes(v: i32) {
    Magnitude(v) >= THREE_BYTE_LIMIT
  }

  lemma ExceedsThreeBytesRange(v: i32)
    ensures ExceedsThreeBytes(v) <==> v >= THREE_BYTE_LIMIT || v <= -THREE_BYTE_LIMIT
  {
  }

  /** The byte loop shared by `to_bytes`, `write_to` and `write_to_bytes`,
      run on an unsigned 32-bit pattern. */
  function EncodeU32(u: nat): (r: seq<byte>)
    ensures |r| >= 1
    ensures u < 0x80 <==> |r| == 1
    decreases u
  {
    if u / 0x80 == 0 then [u % 0x80] else [u % 0x80 + 0x80] + EncodeU32(u / 0x80)
  }

  /** Every byte but the last carries the continuation bit 0x80, and the
      low seven bits of the bytes, least significant first, spell `u`. */
  lemma {:induction false} EncodeContinuation(u: nat)
    ensures forall i :: 0 <= i < |EncodeU32(u)| - 1 ==> EncodeU32(u)[i] >= 0x80
    ensures EncodeU32(u)[|EncodeU32(u)| - 1] < 0x80
    ensures EncodeU32(u)[0] % 0x80 == u % 0x80
    decreases u
  {
    if u / 0x80 != 0 {
      EncodeContinuation(u / 0x80);
    }
  }

  /** `VarInt::to_bytes`: the encoding of the value's 32-bit pattern. */
  function ToBytes(v: i32): (r: seq<byte>)
    ensures 1 <= |r| <= 5
    ensures 0 <= v < THREE_BYTE_LIMIT ==> |r| <= 3
    ensures v < 0 ==> |r| == 5
  {
    EncodeSizeBounds(AsU32(v));
    EncodeU32(AsU32(v))
  }

  lemma {:induction false} EncodeSizeBounds(u: nat)
    ensures u < TWO_32 ==> |EncodeU32(u)| <= 5
    ensures u < THREE_BYTE_LIMIT ==> |EncodeU32(u)| <= 3
    ensures u >= 0x4000 ==> |EncodeU32(u)| >= 3
    ensures u >= 0x20_0000 ==> |EncodeU32(u)| >= 4
    ensures u >= 0x1000_0000 ==> |EncodeU32(u)| >= 5
    ensures u >= 0x80 ==> |EncodeU32(u)| == 1 + |EncodeU32(u / 0x80)|
    decreases u
  {
    if u / 0x80 != 0 {
      EncodeSizeBounds(u / 0x80);
    }
  }

  /** `ProtocolWrite::write_to` (and `write_to_bytes`): the bytes written,
      or InvalidData for a magnitude of 2^21 or more. */
  function Write(v: i32): (r: Result<seq<byte>, IoError>)
    ensures r.Ok? <==> -THREE_BYTE_LIMIT < v < THREE_BYTE_LIMIT
    ensures r.Ok? && v >= 0 ==> 1 <= |r.value| <= 3
    ensures r.Ok? && v < 0 ==> |r.value| == 5
    ensures r.Err? ==> r.error.InvalidData?
  {
    ExceedsThreeBytesRange(v);
    if ExceedsThreeBytes(v) then Err(InvalidData("VarInt too large (exceeds 3 bytes)"))
    else Ok(ToBytes(v))
  }

  /** The loop of `write_to_bytes`, which `put_u8`s each group onto the
      end of an existing buffer. */
  function AppendGroups(buffer: seq<byte>, u: nat): (r: seq<byte>)
    decreases u
  {
    if u / 0x80 == 0 then buffer + [u % 0x80]
    else AppendGroups(buffer + [u % 0x80 + 0x80], u / 0x80)
  }

  /** `WriteToBytes::write_to_bytes`: the extended buffer and the number
      of bytes appended. */
  function WriteToBytes(buffer: seq<byte>, v: i32): (r: Result<(seq<byte>, nat), IoError>)
    ensures r.Ok? <==> Write(v).Ok?
  {
    if ExceedsThreeBytes(v) then Err(InvalidData("VarInt too large (exceeds 3 bytes)"))
    else
      var out := AppendGroups(buffer, AsU32(v));
      AppendGroupsEncodes(buffer, AsU32(v));
      Ok((out, |out| - |buffer|))
  }

  lemma {:induction false} AppendGroupsEncodes(buffer: seq<byte>, u: nat)
    ensures AppendGroups(buffer, u) == buffer + EncodeU32(u)
    decreases u
  {
    if u / 0x80 != 0 {
      AppendGroupsEncodes(buffer + [u % 0x80 + 0x80], u / 0x80);
    }
  }

  /** Appending to a buffer writes exactly the bytes `write_to` writes to
      a stream, and reports the same count. */
  lemma WriteToBytesMatchesWrite(buffer: seq<byte>, v: i32)
    ensures WriteToBytes(buffer, v).Ok? <==> Write(v).Ok?
    ensures Write(v).Ok? ==> WriteToBytes(buffer, v).value
                             == (buffer + Write(v).value, |Write(v).value|)
  {
    if Write(v).Ok? {
      AppendGroupsEncodes(buffer, AsU32(v));
    }
  }

  function Pow128(k: nat): (r: nat)
    ensures r >= 1
  {
    if k == 0 then 1 else 0x80 * Pow128(k - 1)
  }

  /** `group << 7k`: a seven-bit group moved to the k-th position. */
  function Shifted(group: nat, k: nat): nat {
    group * Pow128(k)
  }

  /** The loop of `ProtocolRead::read_from` after k bytes: `acc` holds the
      groups assembled so far.  `value |= group << position` on an `i32`
      drops whatever is shifted past bit 31; since only the fifth group can
      reach that far, dropping those bits once, when the value is
      returned, gives the same 32-bit pattern. */
  function ReadLoop(input: seq<byte>, k: nat, acc: nat): (r: Result<Decoded<i32>, IoError>)
    ensures r.Ok? ==> 1 <= r.value.size <= 5 && r.value.size <= |input|
    ensures r.Ok? ==> input[r.value.size - 1] < 0x80
    decreases 5 - k
  {
    if k >= 5 then Err(InvalidData("VarInt too long (>5 bytes)"))
    else if k >= |input| then Err(UnexpectedEof)
    else
      var b := input[k];
      var acc' := acc + Shifted(b % 0x80, k);
      if b < 0x80 then Ok(Decoded(AsI32(acc' % TWO_32), k + 1))
      else if 7 * (k + 1) >= 32 then Err(InvalidData("VarInt exceeds 32 bits"))
      else ReadLoop(input, k + 1, acc')
  }

  /** `ProtocolRead::read_from`: the value at the front of `input` and the
      number of bytes it occupies. */
  function Read(input: seq<byte>): (r: Result<Decoded<i32>, IoError>)
    ensures r.Ok? ==> 1 <= r.value.size <= 5 && r.value.size <= |input|
    ensures r.Ok? ==> input[r.value.size - 1] < 0x80
  {
    ReadLoop(input, 0, 0)
  }

  /** The low group at position k and the remaining groups from k + 1 on
      make up the whole value at position k. */
  lemma ShiftedSplit(w: nat, k: nat)
    ensures Shifted(w % 0x80, k) + Shifted(w / 0x80, k + 1) == Shifted(w, k)
  {
    var p := Pow128(k);
    assert Pow128(k + 1) == 0x80 * p;
    assert w == w % 0x80 + 0x80 * (w / 0x80);
    assert (w % 0x80) * p + (w / 0x80) * (0x80 * p) == w * p;
  }

  lemma ReadLoopStep(input: seq<byte>, k: nat, acc: nat)
    requires k < 4 && k < |input| && input[k] >= 0x80
    ensures ReadLoop(input, k, acc)
         == ReadLoop(input, k + 1, acc + Shifted(input[k] % 0x80, k))
  {
  }

  lemma ReadLoopLast(input: seq<byte>, k: nat, acc: nat)
    requires k < 5 && k < |input| && input[k] < 0x80
    ensures ReadLoop(input, k, acc)
         == Ok(Decoded(AsI32((acc + Shifted(input[k], k)) % TWO_32), k + 1))
  {
  }

  /** Reading the groups of `w` from position k on, with `acc` already
      assembled, ends with `total`, the accumulated value plus `w` shifted
      into place. */
  lemma {:induction false} ReadLoopEncoded(input: seq<byte>, k: nat, acc: nat, w: nat, total: nat)
    requires k + |EncodeU32(w)| <= 5
    requires k + |EncodeU32(w)| <= |input| && input[k..k + |EncodeU32(w)|] == EncodeU32(w)
    requires total == acc + Shifted(w, k)
    ensures ReadLoop(input, k, acc) == Ok(Decoded(AsI32(total % TWO_32), k + |EncodeU32(w)|))
    decreases w
  {
    var e := EncodeU32(w);
    EncodeStep(w);
    hide *;
    assert input[k] == e[0];
    if w / 0x80 != 0 {
      var rest := w / 0x80;
      var e' := EncodeU32(rest);
      var acc' := acc + Shifted(w % 0x80, k);
      assert input[k] % 0x80 == w % 0x80;
      ReadLoopStep(input, k, acc);
      assert e[1..] == e';
      assert input[k + 1..k + 1 + |e'|] == input[k..k + |e|][1..];
      ShiftedSplit(w, k);
      ReadLoopEncoded(input, k + 1, acc', rest, total);
    } else {
      ReadLoopLast(input, k, acc);
    }
  }

  lemma EncodeStep(u: nat)
    ensures u / 0x80 != 0 ==> EncodeU32(u) == [u % 0x80 + 0x80] + EncodeU32(u / 0x80)
    ensures u / 0x80 == 0 ==> EncodeU32(u) == [u]
  {
  }

  /** Reading back what `to_bytes` wrote yields the same value and consumes
      exactly the written bytes, whatever follows them. */
  lemma ReadToBytes(v: i32, rest: seq<byte>)
    ensures Read(ToBytes(v) + rest) == Ok(Decoded(v, |ToBytes(v)|))
  {
    var e := ToBytes(v);
    assert (e + rest)[0..|e|] == e;
    ReadLoopEncoded(e + rest, 0, 0, AsU32(v), AsU32(v));
    I32U32Inverse(v, 0);
  }

  /** The round trip of the module's tests: a successful write reads back
      as the same value and the same byte count. */
  lemma WriteReadRoundTrip(v: i32, rest: seq<byte>)
    requires Write(v).Ok?
    ensures Read(Write(v).value + rest) == Ok(Decoded(v, |Write(v).value|))
  {
    ReadToBytes(v, rest);
  }

  /** Five bytes that all announce a continuation are rejected as too wide. */
  lemma ReadRejectsSixthGroup(input: seq<byte>)
    requires |input| >= 5
    requires forall i :: 0 <= i < 5 ==> input[i] >= 0x80
    ensures Read(input).Err? && Read(input).error.InvalidData?
  {
  }

  /** Input that ends while the last byte still announces a continuation
      fails with UnexpectedEof. */
  lemma {:induction false} ReadTruncated(input: seq<byte>, k: nat, acc: nat)
    requires k <= |input| < 5
    requires forall i :: k <= i < |input| ==> input[i] >= 0x80
    ensures ReadLoop(input, k, acc) == Err(UnexpectedEof)
    decreases |input| - k
  {
    if k < |input| {
      ReadTruncated(input, k + 1, acc + Shifted(input[k] % 0x80, k));
    }
  }

  /** The loop of `VarInt::len`: the number of groups the loop counts for
      magnitude m, given `size` groups already counted. */
  function LenLoop(m: nat, size: nat): nat
    decreases m
  {
    if m <= 0x7f then size + 1
    else if size + 1 >= 5 then size + 1
    else LenLoop(m / 0x80, size + 1)
  }

  /** `VarInt::len` as written: the group count of the magnitude. */
  function LenAsWritten(v: i32): (n: nat)
    ensures 1 <= n <= 5
  {
    LenLoopBounds(Magnitude(v), 0);
    LenLoop(Magnitude(v), 0)
  }

  /** `VarInt::len` measuring the 32-bit pattern, as `VarLong::len` does
      for its 64-bit pattern: the number of bytes `to_bytes` produces. */
  function Len(v: i32): (n: nat)
    ensures n == |ToBytes(v)|
  {
    EncodeSizeBounds(AsU32(v));
    LenLoopEncoded(AsU32(v), 0);
    LenLoop(AsU32(v), 0)
  }

  lemma {:induction false} LenLoopBounds(m: nat, size: nat)
    requires size < 5
    ensures size + 1 <= LenLoop(m, size) <= 5
    decreases m
  {
    if m > 0x7f && size + 1 < 5 {
      LenLoopBounds(m / 0x80, size + 1);
    }
  }

  lemma {:induction false} LenLoopEncoded(u: nat, size: nat)
    requires size + |EncodeU32(u)| <= 5
    ensures LenLoop(u, size) == size + |EncodeU32(u)|
    decreases u
  {
    if u > 0x7f {
      EncodeSizeBounds(u);
      LenLoopEncoded(u / 0x80, size + 1);
    }
  }

  /** For every negative value `len` as written reports fewer bytes than
      `to_bytes` produces; -1 is the smallest witness. */
  /** -1 is encoded as its 32-bit pattern 0xFFFFFFFF: four full groups
      with the continuation bit, then the top four bits. */
  lemma MinusOneBytes()
    ensures ToBytes(-1) == [0xFF, 0xFF, 0xFF, 0xFF, 0x0F]
  {
    assert AsU32(-1) == 0xFFFF_FFFF;
    EncodeStep(0xFFFF_FFFF);
    EncodeStep(0x1FF_FFFF);
    EncodeStep(0x3_FFFF);
    EncodeStep(0x7FF);
    EncodeStep(0x0F);
  }

  lemma LenAsWrittenUndercountsNegative()
    ensures LenAsWritten(-1) == 1
    ensures |ToBytes(-1)| == 5
  {
  }
}
