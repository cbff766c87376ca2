/** Uncompressed, unencrypted packet framing
    (crates/infrarust/src/network/packet/base.rs and builder.rs).  A frame
    is a VarInt length, then the VarInt packet id, then the payload; the
    length counts the id and the payload. */
module Packet {
  import opened Bytes
  import opened Wrappers
  import opened Io
  import VarInt
  import Arrays

  /** The largest length a three-byte VarInt can carry. */
  const MAX_PACKET_LENGTH: nat := 2097151
  const MAX_PACKET_DATA_LENGTH: nat := 0x200000
  /** `Version::V1_20_2`, the protocol version a new packet starts with. */
  const DEFAULT_PROTOCOL_VERSION: int := 764

  datatype CompressionState = CompressionDisabled | CompressionEnabled(threshold: i32)

  datatype EncryptionState = EncryptionDisabled | EncryptionEnabled(encryptedData: bool)

  datatype PacketError =
    | Io(cause: IoError)
    | Compression(message: string)
    | Encryption(message: string)
    | InvalidLength(length: nat, max: nat)
    | InvalidFormat(message: string)

  datatype Packet = Packet(id: i32, data: seq<byte>, compression: CompressionState,
                           encryption: EncryptionState, protocolVersion: int)

  /** `Packet::new`: an empty payload, no compression, no encryption. */
  function NewPacket(id: i32): Packet {
    Packet(id, [], CompressionDisabled, EncryptionDisabled, DEFAULT_PROTOCOL_VERSION)
  }

  /** The `?` conversion from `io::Error` into `PacketError::Io`. */
  function LiftIo<T>(r: Result<T, IoError>): (q: Result<T, PacketError>)
    ensures q.Ok? <==> r.Ok?
    ensures q.Ok? ==> q.value == r.value
  {
    match r
    case Ok(v) => Ok(v)
    case Err(e) => Err(Io(e))
  }

  // Encryption control

  /** `EncryptionControl::enable_encryption`: enabled, payload not yet marked. */
  function EnableEncryption(p: Packet): Packet {
    p.(encryption := EncryptionEnabled(false))
  }

  /** `EncryptionControl::mark_as_encrypted`: only an enabled state changes. */
  function MarkAsEncrypted(p: Packet): Packet {
    if p.encryption.EncryptionEnabled? then p.(encryption := EncryptionEnabled(true)) else p
  }

  // Validation

  function ValidateLength(p: Packet): Result<(), PacketError> {
    if p.encryption.EncryptionEnabled? then Ok(())
    else if |p.data| > MAX_PACKET_LENGTH then Err(InvalidLength(|p.data|, MAX_PACKET_LENGTH))
    else Ok(())
  }

  function ValidateEncryption(p: Packet): Result<(), PacketError> {
    if p.encryption == EncryptionEnabled(false) && |p.data| > 0 then
      Err(Encryption("Non-encrypted data when encryption is enabled"))
    else Ok(())
  }

  function ValidateCompression(p: Packet): Result<(), PacketError> {
    if p.compression.CompressionEnabled? && p.compression.threshold < 0 then
      Err(Compression("Invalid compression threshold"))
    else Ok(())
  }

  /** `PacketValidation::validate`: the length, encryption and compression
      checks in that order; the first failure is reported. */
  function Validate(p: Packet): (r: Result<(), PacketError>)
    ensures r.Ok? <==>
              (p.encryption.EncryptionEnabled? || |p.data| <= MAX_PACKET_LENGTH)
              && (p.encryption == EncryptionEnabled(false) ==> |p.data| == 0)
              && (p.compression.CompressionEnabled? ==> p.compression.threshold >= 0)
    ensures r.Err? && p.encryption.EncryptionDisabled? && |p.data| > MAX_PACKET_LENGTH
            ==> r.error == InvalidLength(|p.data|, MAX_PACKET_LENGTH)
  {
    var _ :- ValidateLength(p);
    var _ :- ValidateEncryption(p);
    ValidateCompression(p)
  }

  /** Once encryption is enabled the length limit no longer applies, and
      a non-empty payload is valid only after it has been marked. */
  lemma EncryptedPacketValidation(p: Packet)
    requires p.compression == CompressionDisabled
    ensures Validate(EnableEncryption(p)).Ok? <==> |p.data| == 0
    ensures Validate(MarkAsEncrypted(EnableEncryption(p))).Ok?
  {
  }

  // Encoding values into the payload

  /** `PacketCodec::encode`: the value's encoding is appended to the payload. */
  function Encode<T>(p: Packet, value: T, write: T -> Result<seq<byte>, IoError>)
    : (r: Result<Packet, PacketError>)
    ensures r.Ok? <==> write(value).Ok?
    ensures r.Ok? ==> r.value == p.(data := p.data + write(value).value)
  {
    var bytes :- LiftIo(write(value));
    Ok(p.(data := p.data + bytes))
  }

  /** `PacketCodec::decode`: a value read from the start of the payload. */
  function Decode<T>(p: Packet, read: seq<byte> -> Result<Decoded<T>, IoError>)
    : (r: Result<T, PacketError>)
    ensures r.Ok? ==> read(p.data).Ok? && r.value == read(p.data).value.value
  {
    var d :- LiftIo(read(p.data));
    Ok(d.value)
  }

  /** A value encoded into a fresh packet decodes back. */
  lemma EncodeDecode<T(!new)>(id: i32, value: T, write: T -> Result<seq<byte>, IoError>,
                              read: seq<byte> -> Result<Decoded<T>, IoError>)
    requires Arrays.ElementRoundTrip(write, read)
    requires write(value).Ok?
    ensures Decode(Encode(NewPacket(id), value, write).value, read) == Ok(value)
  {
    assert write(value).value + [] == write(value).value;
    assert [] + write(value).value == write(value).value;
    assert read(write(value).value + []) == Ok(Decoded(value, |write(value).value|));
  }

  /** Decoding looks only at the payload's first bytes: encoding more
      values after a decodable one does not change what is decoded. */
  lemma DecodeReadsFromStart<T(!new), U>(p: Packet, value: U, write: U -> Result<seq<byte>, IoError>,
                                       read: seq<byte> -> Result<Decoded<T>, IoError>)
    requires forall bs, more :: read(bs).Ok? ==> read(bs + more) == read(bs)
    requires Decode(p, read).Ok? && write(value).Ok?
    ensures Decode(Encode(p, value, write).value, read) == Decode(p, read)
  {
    assert read(p.data + write(value).value) == read(p.data);
  }

  // Framing

  /** `PacketSerialization::into_raw_bytes`: the VarInt length of id and
      payload, the VarInt id, then the payload. */
  function IntoRawBytes(p: Packet): (r: Result<seq<byte>, PacketError>)
    ensures r.Ok? <==> VarInt.Write(p.id).Ok?
                       && VarInt.Write(Arrays.LengthPrefix(|VarInt.ToBytes(p.id)| + |p.data|)).Ok?
    ensures r.Ok? ==> r.value == VarInt.ToBytes(Arrays.LengthPrefix(|VarInt.ToBytes(p.id)| + |p.data|))
                                 + VarInt.ToBytes(p.id) + p.data
  {
    // `write_to` into a fresh buffer yields exactly `VarInt.Write`'s
    // bytes (VarInt.WriteToBytesMatchesWrite).
    var idPart :- LiftIo(VarInt.Write(p.id));
    var content := idPart + p.data;
    var lengthPart :- LiftIo(VarInt.Write(Arrays.LengthPrefix(|content|)));
    Ok(lengthPart + content)
  }

  /** `PacketBuilder`: every field optional until `build`. */
  datatype PacketBuilder = PacketBuilder(id: Option<i32>, data: Option<seq<byte>>,
                                         compression: CompressionState,
                                         encryption: EncryptionState, protocolVersion: int)

  function NewBuilder(): PacketBuilder {
    PacketBuilder(None, None, CompressionDisabled, EncryptionDisabled, DEFAULT_PROTOCOL_VERSION)
  }

  /** `PacketBuilder::build`: an id is required, the payload defaults to
      empty, and the packet must validate. */
  function Build(b: PacketBuilder): (r: Result<Packet, PacketError>)
    ensures b.id.None? ==> r == Err(InvalidFormat("Missing packet ID"))
    ensures b.id.Some? ==>
              var p := Packet(b.id.value, b.data.UnwrapOr([]), b.compression, b.encryption, b.protocolVersion);
              (r.Ok? <==> Validate(p).Ok?) && (r.Ok? ==> r.value == p)
  {
    var id :- if b.id.Some? then Ok(b.id.value) else Err(InvalidFormat("Missing packet ID"));
    var p := Packet(id, b.data.UnwrapOr([]), b.compression, b.encryption, b.protocolVersion);
    var _ :- Validate(p);
    Ok(p)
  }

  /** `PacketSerialization::from_raw_bytes`.  The declared length must lie
      in 1..MAX_PACKET_LENGTH, but the payload is whatever follows the id:
      its size is not compared with the declared length. */
  function FromRawBytes(bytes: seq<byte>): (r: Result<Packet, PacketError>)
    ensures r.Ok? ==> VarInt.Read(bytes).Ok?
                      && 0 < VarInt.Read(bytes).value.value <= MAX_PACKET_LENGTH
    ensures r.Ok? ==> |r.value.data| <= MAX_PACKET_LENGTH
                      && |r.value.data| <= |bytes|
                      && r.value.data == bytes[|bytes| - |r.value.data|..]
                      && r.value.compression.CompressionDisabled?
                      && r.value.encryption.EncryptionDisabled?
  {
    var length :- if VarInt.Read(bytes).Ok? then Ok(VarInt.Read(bytes).value)
                  else Err(InvalidFormat("Invalid packet length VarInt"));
    if length.value <= 0 || length.value > MAX_PACKET_LENGTH then
      Err(InvalidLength(length.value % TWO_64, MAX_PACKET_LENGTH))
    else
      var rest := bytes[length.size..];
      var id :- if VarInt.Read(rest).Ok? then Ok(VarInt.Read(rest).value)
                else Err(InvalidFormat("Invalid packet ID VarInt"));
      var data := rest[id.size..];
      if |data| > MAX_PACKET_DATA_LENGTH then Err(InvalidLength(|data|, MAX_PACKET_DATA_LENGTH))
      else
        var packet :- Build(NewBuilder().(id := Some(id.value), data := Some(data)));
        assert data == bytes[|bytes| - |data|..];
        match ValidateLength(packet)
        case Err(e) => Err(e)
        case Ok(_) => Ok(packet)
  }

  /** A declared length of zero or less, or more than MAX_PACKET_LENGTH, is
      rejected; a negative one is reported as its `usize` reinterpretation. */
  lemma FromRawBytesRejectsLength(bytes: seq<byte>)
    requires VarInt.Read(bytes).Ok?
    requires var n := VarInt.Read(bytes).value.value; n <= 0 || n > MAX_PACKET_LENGTH
    ensures FromRawBytes(bytes)
         == Err(InvalidLength(VarInt.Read(bytes).value.value % TWO_64, MAX_PACKET_LENGTH))
  {
  }

  /** A payload of more than MAX_PACKET_DATA_LENGTH bytes after a valid
      length and id is rejected. */
  lemma FromRawBytesRejectsLongData(bytes: seq<byte>)
    requires VarInt.Read(bytes).Ok?
    requires 0 < VarInt.Read(bytes).value.value <= MAX_PACKET_LENGTH
    requires var rest := bytes[VarInt.Read(bytes).value.size..];
             VarInt.Read(rest).Ok? && |rest| - VarInt.Read(rest).value.size > MAX_PACKET_DATA_LENGTH
    ensures FromRawBytes(bytes).Err? && FromRawBytes(bytes).error.InvalidLength?
    ensures FromRawBytes(bytes).error.max == MAX_PACKET_DATA_LENGTH
  {
  }

  /** A framed packet unframes to the same id and payload, with the
      compression, encryption and version of a fresh packet.  (The frame
      length is cast `as i32`; the lemma covers the lengths the cast keeps.) */
  lemma RawBytesRoundTrip(p: Packet)
    requires |VarInt.ToBytes(p.id)| + |p.data| < 0x8000_0000
    requires IntoRawBytes(p).Ok?
    ensures FromRawBytes(IntoRawBytes(p).value)
         == Ok(Packet(p.id, p.data, CompressionDisabled, EncryptionDisabled, DEFAULT_PROTOCOL_VERSION))
  {
    hide *;
    VarInt.ThreeByteLimit();
    var idBytes := VarInt.ToBytes(p.id);
    var n := |idBytes| + |p.data|;
    var lenBytes := VarInt.ToBytes(n);
    assert IntoRawBytes(p).value == lenBytes + (idBytes + p.data);
    VarInt.ReadToBytes(n, idBytes + p.data);
    VarInt.ReadToBytes(p.id, p.data);
    FromRawBytesOf(lenBytes, idBytes, p.data, n, p.id);
  }

  /** The reader's steps over a frame: a length taking the bytes
      `lenBytes`, an id taking `idBytes`, and the payload after them. */
  lemma FromRawBytesOf(lenBytes: seq<byte>, idBytes: seq<byte>, data: seq<byte>, n: i32, id: i32)
    requires 0 < n < VarInt.THREE_BYTE_LIMIT && |data| <= n
    requires VarInt.Read(lenBytes + (idBytes + data)) == Ok(Decoded(n, |lenBytes|))
    requires VarInt.Read(idBytes + data) == Ok(Decoded(id, |idBytes|))
    ensures FromRawBytes(lenBytes + (idBytes + data))
         == Ok(Packet(id, data, CompressionDisabled, EncryptionDisabled, DEFAULT_PROTOCOL_VERSION))
  {
    AfterPrefix(lenBytes, idBytes + data);
    AfterPrefix(idBytes, data);
  }
}
