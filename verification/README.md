# Infrarust core, modelled in Dafny

Infrarust is a reverse proxy for Minecraft Java servers: it reads the
first packets a client sends, decides from the requested domain which
backend server to forward to, and answers status requests itself when
it can. This project models the parts of it that are pure computation
over bytes, strings and maps, and proves what they promise. The async
networking around them is not modelled.

- **Wire codecs** (`varint.dfy`, `arrays.dfy`, `strings.dfy`,
  `position.dfy`, `primitives.dfy`, `handshake.dfy`, `packet.dfy`).
  Covers VarInt, length-prefixed byte arrays and element arrays, UTF-8
  protocol strings and identifiers, packed block positions, the modern
  handshake, and packet framing. Each has round-trip lemmas and lemmas
  for its error cases.
- **Legacy protocol** (`legacy_ping.dfy`, `legacy_handshake.dfy`,
  `legacy_kick.dfy`, `utf16.dfy`). Covers the pre-1.7 server-list pings,
  handshakes and kick packets, with their UTF-16BE strings.
- **PROXY protocol** (`proxy_protocol.dfy`, `net.dfy`). Covers the
  version 1 (text) and version 2 (binary) headers of the HAProxy PROXY
  protocol, as the proxy's reader parses them.
- **Routing** (`routing.dfy`, `config.dfy`, `config_updates.dfy`).
  Covers domain-to-server lookup ranked by wildcard specificity, the
  upsert and removal of server configurations, and the Docker
  provider's de-duplication of configuration updates.
- **Status handling** (`status_cache.dfy`, `motd.dfy`,
  `server_status.dfy`). Covers the time-to-live status cache with
  bounded size, MOTD selection per server state, and server-state and
  crash-loop tracking.
- **Ban system** (`ban_entry.dfy`, `ban_index.dfy`, `ban_store.dfy`).
  Covers ban entries, the index that files each ban under five keys,
  searching, paging, statistics and removal.
- **Admin helpers** (`durations.dfy`, `logging.dfy`, `filters.dfy`,
  `buffer_pool.dfy`). Covers ban-duration parsing and formatting, log
  level and log type filtering, the connection-filter registry and
  chain, and the packet buffer pool.
- **Shared helpers** (`wrappers.dfy`, `bytes.dfy`, `text.dfy`,
  `utf8.dfy`, `io.dfy`). Option/Result, fixed-width integers and
  big-endian conversions, ASCII text operations, UTF-8, and the I/O
  errors and decoded-value results the codecs share.

Conventions:
- Integers are unbounded. Every place where the Rust code's fixed width
  matters is written out: two's-complement `i32`/`i64` patterns,
  wrapping `u32`/`u64` arithmetic (as in a release build), saturating subtraction.
- A reader is a function from the bytes available to a decoded value
  and the number of bytes it used.
- "Now" and the other values the program obtains from its environment
  are parameters: clocks, random UUIDs, hashes, results of I/O, and the
  decisions of code outside the model.
- Where the Rust code iterates over a `HashMap`, its order is
  unspecified. The model then leaves the choice open (`:|`) and states
  what holds for every order.

## Model

| member | source | states |
|---|---|---|
| VarInt.ExceedsThreeBytesRange | crates/infrarust_protocol/src/types/var_numbers.rs:12-19 | `exceeds_three_bytes` holds exactly when the value is at least 2^21 or at most -2^21 |
| VarInt.Magnitude | crates/infrarust_protocol/src/types/var_numbers.rs:12-40 | the magnitude measured is the value itself when non-negative, and otherwise its 32-bit wrapping negation, which adds to the value to give zero |
| VarInt.EncodeContinuation | crates/infrarust_protocol/src/types/var_numbers.rs:46-67 | every byte of an encoding but the last carries the continuation bit 0x80, the last does not, and the first holds the low seven bits |
| VarInt.ToBytes | crates/infrarust_protocol/src/types/var_numbers.rs:46-67 | the encoding has 1 to 5 bytes, at most 3 for values in 0..2^21, and exactly 5 for every negative value |
| VarInt.EncodeSizeBounds | crates/infrarust_protocol/src/types/var_numbers.rs:46-67 | an encoding grows by one byte per seven-bit group: at most 5 bytes below 2^32, at most 3 below 2^21, and at least 3, 4 and 5 bytes from 2^14, 2^21 and 2^28 on |
| VarInt.Write | crates/infrarust_protocol/src/types/var_numbers.rs:96-124 | writing succeeds exactly for values strictly between -2^21 and 2^21 and otherwise fails with InvalidData; a successful non-negative write is 1 to 3 bytes and a negative one 5 |
| VarInt.WriteToBytes | crates/infrarust_protocol/src/types/var_numbers.rs:166-194 | appending to a buffer succeeds exactly when writing to a stream does |
| VarInt.AppendGroupsEncodes | crates/infrarust_protocol/src/types/var_numbers.rs:174-189 | the append loop adds exactly the encoding's bytes to the end of the buffer |
| VarInt.WriteToBytesMatchesWrite | crates/infrarust_protocol/src/types/var_numbers.rs:96-124 | `write_to_bytes` appends the same bytes `write_to` writes and reports the same count |
| VarInt.Read | crates/infrarust_protocol/src/types/var_numbers.rs:128-162 | a successful read uses 1 to 5 bytes of the input, and the last byte used has no continuation bit |
| VarInt.ReadLoop | crates/infrarust_protocol/src/types/var_numbers.rs:134-158 | each step of the read loop keeps within 5 bytes and stops at a byte without the continuation bit |
| VarInt.ReadLoopEncoded | crates/infrarust_protocol/src/types/var_numbers.rs:134-158 | reading an encoded group sequence from any position assembles the shifted groups into the value, wrapped to 32 bits, and stops right after them |
| VarInt.ReadToBytes | crates/infrarust_protocol/src/types/var_numbers.rs:46-67 | reading back any value's encoding, whatever follows it, gives the value and consumes exactly the encoding's bytes |
| VarInt.WriteReadRoundTrip | crates/infrarust_protocol/src/types/var_numbers.rs:203-220 | every value that can be written reads back as itself with the same byte count |
| VarInt.ReadRejectsSixthGroup | crates/infrarust_protocol/src/types/var_numbers.rs:143-148 | five bytes that all carry the continuation bit are rejected with InvalidData |
| VarInt.ReadTruncated | crates/infrarust_protocol/src/types/var_numbers.rs:135-137 | input that ends while a continuation is still announced fails with UnexpectedEof |
| VarInt.LenAsWritten | crates/infrarust_protocol/src/types/var_numbers.rs:21-40 | `len` as written reports between 1 and 5 bytes |
| VarInt.LenLoopBounds | crates/infrarust_protocol/src/types/var_numbers.rs:24-39 | the length loop counts at least one more group and never more than 5 in total |
| VarInt.LenLoopEncoded | crates/infrarust_protocol/src/types/var_numbers.rs:24-39 | the length loop counts exactly the groups of the encoding |
| VarInt.Len | crates/infrarust_protocol/src/types/var_numbers.rs:73-88 | the corrected length, measured on the 32-bit pattern as `VarLong::len` measures its 64-bit pattern, equals the number of bytes `to_bytes` produces |
| VarInt.MinusOneBytes | crates/infrarust_protocol/src/types/var_numbers.rs:46-67 | -1 is written as its 32-bit pattern, four continuation bytes 0xFF and a final 0x0F |
| VarInt.LenAsWrittenUndercountsNegative | crates/infrarust_protocol/src/types/var_numbers.rs:21-40 | `len(-1)` as written is 1, while the encoding of -1 has 5 bytes |
| Arrays.LengthPrefix | crates/infrarust_protocol/src/types/arrays.rs:9-15 | the length prefix written is the payload length, for every length an `i32` holds |
| Arrays.WriteByteArray | crates/infrarust_protocol/src/types/arrays.rs:9-15 | a byte array is written as the VarInt of its length followed by the bytes, and fails exactly when the length needs more than three VarInt bytes |
| Arrays.ReadByteArray | crates/infrarust_protocol/src/types/arrays.rs:19-34 | a successful read never uses more bytes than the input has |
| Arrays.FramedPayload | crates/infrarust_protocol/src/types/arrays.rs:9-34 | a length prefix followed by that many bytes reads back as exactly those bytes |
| Arrays.ByteArrayRoundTrip | crates/infrarust_protocol/src/types/arrays.rs:69-81 | a written byte array reads back as the same bytes, and the bytes read equal the bytes written |
| Arrays.ByteArrayRejectsNegativeLength | crates/infrarust_protocol/src/types/arrays.rs:21-26 | a negative length prefix is rejected with InvalidData |
| Arrays.WritePrefixedArray | crates/infrarust_protocol/src/types/arrays.rs:38-45 | a prefixed array begins with the VarInt of its element count |
| Arrays.ReadItems | crates/infrarust_protocol/src/types/arrays.rs:53-62 | reading `count` elements gives exactly `count` of them within the input |
| Arrays.ReadPrefixedArray | crates/infrarust_protocol/src/types/arrays.rs:48-65 | a bad count prefix fails with the VarInt error; a negative count reaches `Vec::with_capacity` as a huge `usize` and panics with "capacity overflow"; a successful read returns exactly the counted elements and uses no more bytes than the input has |
| Arrays.NegativeCountAborts | crates/infrarust_protocol/src/types/arrays.rs:48-50 | a count prefix of -1 (bytes FF FF FF FF 0F) panics on the capacity, whatever follows |
| Arrays.ReadWriteItems | crates/infrarust_protocol/src/types/arrays.rs:38-65 | elements whose own codec round-trips read back in order from their concatenated encodings |
| Arrays.ItemsNil | crates/infrarust_protocol/src/types/arrays.rs:99-117 | no elements write as no bytes, and reading zero elements reads nothing |
| Arrays.PrefixedArrayRoundTrip | crates/infrarust_protocol/src/types/arrays.rs:84-117 | a written prefixed array reads back as the same elements, including the empty array, with the bytes read equal to the bytes written |
| Arrays.WritePrefixedArrayParts | crates/infrarust_protocol/src/types/arrays.rs:38-45 | a prefixed array is the count's VarInt followed by each element's encoding |
| Arrays.IntElementCodec | crates/infrarust_protocol/src/types/arrays.rs:84-97 | `Int` elements, as the module's tests use, satisfy the element round trip |
| Strings.WriteString | crates/infrarust/src/protocol/types/strings.rs:10-18 | a string is written as the VarInt of its UTF-8 byte length followed by those bytes, failing exactly when that length needs more than three VarInt bytes |
| Strings.ReadString | crates/infrarust/src/protocol/types/strings.rs:21-37 | a successful read never uses more bytes than the input has |
| Strings.ReadStringOf | crates/infrarust/src/protocol/types/strings.rs:21-37 | a length prefix followed by the UTF-8 encoding of a string reads back as that string |
| Strings.StringRoundTrip | crates/infrarust/src/protocol/types/strings.rs:100-114 | every string that can be written reads back as itself, with the bytes read equal to the bytes written |
| Strings.StringRejectsNegativeLength | crates/infrarust/src/protocol/types/strings.rs:23-28 | a negative length is rejected with InvalidData |
| Strings.StringRejectsInvalidUtf8 | crates/infrarust/src/protocol/types/strings.rs:33-34 | a payload that is not valid UTF-8 is rejected with InvalidData |
| Strings.ReadStringPayloadIsEncoding | crates/infrarust/src/protocol/types/strings.rs:21-37 | a string read successfully is the UTF-8 decoding of exactly the bytes its prefix announced |
| Strings.NamespaceAndPath | crates/infrarust/src/protocol/types/strings.rs:77-81 | an identifier without ':' has the namespace "minecraft" and is all path; otherwise it splits at the first ':' |
| Strings.WriteIdentifier | crates/infrarust/src/protocol/types/strings.rs:69-72 | an identifier is written exactly as the protocol string of its text |
| Strings.ReadIdentifier | crates/infrarust/src/protocol/types/strings.rs:75-95 | an identifier is read exactly when a string is read whose namespace and path are valid, and it is that string |
| Strings.DefaultNamespace | crates/infrarust/src/protocol/types/strings.rs:77-88 | without a ':' the namespace is "minecraft", and the identifier is valid exactly when its text is a valid path |
| Strings.IdentifierRoundTrip | crates/infrarust/src/protocol/types/strings.rs:117-149 | a written identifier reads back successfully exactly when it is valid |
| Strings.ExplicitNamespace | crates/infrarust/src/protocol/types/strings.rs:48-88 | "ns:path" splits into ns and path, and is valid exactly when ns is a non-empty namespace of `[a-z0-9._-]` and path a non-empty path of `[a-z0-9._/-]` |
| Strings.UppercaseIsInvalid | crates/infrarust/src/protocol/types/strings.rs:48-65 | an upper-case letter anywhere in the namespace or path makes the identifier invalid |
| Strings.EmptyNamespaceIsInvalid | crates/infrarust/src/protocol/types/strings.rs:48-53 | an empty namespace before the ':' makes the identifier invalid |
| Position.Encode | src/protocol/types/postion.rs:16-20 | x is packed into bits 38..63, z into bits 12..37 and y into bits 0..11, each as its low bits |
| Position.FieldsOfPacked | src/protocol/types/postion.rs:16-20 | three fields placed at bits 38, 12 and 0 can be read back by division and remainder |
| Position.Decode | src/protocol/types/postion.rs:22-28 | every 64-bit value decodes to a position whose x and z fit 26 signed bits and whose y fits 12, so the casts `as i32` and `as i16` keep every bit |
| Position.SarBounds | src/protocol/types/postion.rs:22-28 | an arithmetic shift of an `i64` right by n bits gives a value of 64 - n signed bits |
| Position.DecodeEncode | src/protocol/types/postion.rs:22-93 | decoding an encoded position gives it back whenever x and z fit 26 signed bits and y fits 12 |
| Position.WritePosition | src/protocol/types/postion.rs:31-36 | a position is written as exactly 8 bytes |
| Position.ReadPosition | src/protocol/types/postion.rs:39-45 | reading succeeds exactly when 8 bytes are available, and uses 8 |
| Position.PositionRoundTrip | src/protocol/types/postion.rs:69-79 | a written position in range reads back as itself from its 8 bytes |
| Primitives.WriteByte | crates/infrarust_protocol/src/types/primitives.rs:28-33 | a `Byte` is written as one byte |
| Primitives.ReadByte | crates/infrarust_protocol/src/types/primitives.rs:35-44 | a `Byte` is read exactly when one byte is available, and otherwise fails with UnexpectedEof |
| Primitives.ByteRoundTrip | crates/infrarust_protocol/src/types/primitives.rs:28-44 | a written `Byte` reads back as itself from one byte |
| Primitives.WriteUnsignedShort | crates/infrarust_protocol/src/types/primitives.rs:142-147 | an `UnsignedShort` is written as two bytes |
| Primitives.ReadUnsignedShort | crates/infrarust_protocol/src/types/primitives.rs:149-155 | an `UnsignedShort` is read exactly when two bytes are available, and otherwise fails with UnexpectedEof |
| Primitives.UnsignedShortRoundTrip | crates/infrarust_protocol/src/types/primitives.rs:142-155 | a written `UnsignedShort` reads back as itself from two bytes |
| Primitives.WriteInt | crates/infrarust_protocol/src/types/primitives.rs:66-71 | an `Int` is written as four bytes |
| Primitives.ReadInt | crates/infrarust_protocol/src/types/primitives.rs:73-82 | an `Int` is read exactly when four bytes are available, and otherwise fails with UnexpectedEof |
| Primitives.IntRoundTrip | crates/infrarust_protocol/src/types/primitives.rs:66-82 | a written `Int` reads back as itself from four bytes |
| Utf8.DecodeEncode | crates/infrarust/src/protocol/types/strings.rs:10-37 | the UTF-8 bytes of every string decode back to that string |
| Utf8.EncodeDecode | crates/infrarust/src/protocol/types/strings.rs:33-34 | bytes accepted as UTF-8 are exactly the encoding of the string they decode to, so no overlong or surrogate form is accepted |
| Utf16.DecodeEncode | crates/infrarust_protocol/src/minecraft/java/legacy/ping.rs:101-120 | the UTF-16 code units of every string decode back to that string |
| Utf16.EncodeDecode | crates/infrarust_protocol/src/minecraft/java/legacy/kick.rs:49-68 | code units accepted as UTF-16 are exactly the encoding of the string they decode to, so no lone surrogate is accepted |
| Utf16.FromToBeBytes | crates/infrarust_protocol/src/minecraft/java/legacy/ping.rs:108-181 | code units written big-endian read back as the same code units |
| Utf16.ToFromBeBytes | crates/infrarust_protocol/src/minecraft/java/legacy/kick.rs:40-68 | an even number of bytes read as big-endian code units is written back as the same bytes |
| Bytes.FromBeToBe | crates/infrarust_protocol/src/types/primitives.rs:66-82 | a number below 256 to the power n, written as n big-endian bytes, reads back as itself |
| Bytes.ToBeFromBe | crates/infrarust_protocol/src/types/primitives.rs:66-82 | any bytes read as a big-endian number are written back as the same bytes |
| Bytes.I32RoundTrip | crates/infrarust_protocol/src/types/primitives.rs:66-82 | a signed 32-bit value written as four two's-complement bytes reads back as itself, negatives included |
| Net.ParseFormatIpv4 | crates/infrarust_protocol/src/minecraft/java/handshake.rs:94-127 | the dotted-quad text of every IPv4 address parses back to that address |
| Net.FormatParseIpv4 | crates/infrarust_protocol/src/minecraft/java/handshake.rs:94-98 | a text accepted as an IPv4 address is exactly the dotted-quad text of that address, so no leading zeros or other spellings pass |
| Text.ParseNatToString | crates/infrarust_protocol/src/minecraft/java/handshake.rs:79-127 | the decimal text of a number parses back to it whenever it is within the bound |
| VarInt.EncodeU32 | crates/infrarust_protocol/src/types/var_numbers.rs:46-67 | seven bits go into each byte, so an encoding is one byte long exactly when the value is below 0x80 |
| Arrays.ReadPrefixedArrayOf | crates/infrarust_protocol/src/types/arrays.rs:48-65 | a count prefix followed by that many readable elements reads as those elements, with the byte count of both parts |
| Handshake.ParseServerAddress | crates/infrarust_protocol/src/minecraft/java/handshake.rs:59-70 | the host returned holds no NUL and no "///", neither starts nor ends with '.', and is no longer than the address sent |
| Handshake.ParsePlainAddress | crates/infrarust_protocol/src/minecraft/java/handshake.rs:59-70 | an address without NUL, "///" or outer dots is returned unchanged |
| Handshake.ParseIgnoresForgeSuffix | crates/infrarust_protocol/src/minecraft/java/handshake.rs:59-63 | whatever follows the Forge NUL marker does not change the host |
| Handshake.ParseTrimsDots | crates/infrarust_protocol/src/minecraft/java/handshake.rs:59-70 | with no marker and no RealIP suffix, the host is the address with its outer dots trimmed |
| Handshake.ParseRealIp | crates/infrarust_protocol/src/minecraft/java/handshake.rs:72-100 | fewer than three "///" parts is InvalidLength(part count); a numeric timestamp with no ':' in the second part is InvalidLength(1); on success the host is the first part, the timestamp is the third part's number, and the client address is IPv4 |
| Handshake.NoColonOnePiece | crates/infrarust_protocol/src/minecraft/java/handshake.rs:85-88 | a client part without ':' splits into one piece, which is why the length error carries 1 |
| Handshake.UpgradeToRealIp | crates/infrarust_protocol/src/minecraft/java/handshake.rs:102-129 | for an IPv4 client, the upgrade changes only the address, which then carries the RealIP separator (IPv6 clients and address resolution are under Left out) |
| Handshake.UpgradedAddressIsJoin | crates/infrarust_protocol/src/minecraft/java/handshake.rs:116-127 | without a Forge marker the new address is host, "ip:port" and timestamp joined by "///" |
| Handshake.RealIpRoundTrip | crates/infrarust_protocol/src/minecraft/java/handshake.rs:72-129 | parsing an upgraded address gives back the host, the timestamp, the client's IPv4 address and its port |
| Handshake.UpgradeKeepsServerAddress | crates/infrarust_protocol/src/minecraft/java/handshake.rs:59-129 | upgrading does not change the host `parse_server_address` reports |
| Handshake.WriteHandshake | crates/infrarust_protocol/src/minecraft/java/handshake.rs:170-179 | writing fails exactly when the version or the address cannot be written; otherwise the size is the version's VarInt, the address string and 3 bytes for port and state |
| Handshake.ReadHandshake | crates/infrarust_protocol/src/minecraft/java/handshake.rs:181-207 | a successful read never uses more bytes than the input has |
| Handshake.ReadPortAndState | crates/infrarust_protocol/src/minecraft/java/handshake.rs:191-195 | port and state are read exactly when 3 bytes are available, and take 3 |
| Handshake.ReadFromBytes | crates/infrarust_protocol/src/minecraft/java/handshake.rs:132-146 | `read_from_bytes` succeeds exactly when `read_from` does, with the same handshake |
| Handshake.PortAndStateRoundTrip | crates/infrarust_protocol/src/minecraft/java/handshake.rs:170-207 | a written port and state read back as themselves from 3 bytes |
| Handshake.AfterVersionRoundTrip | crates/infrarust_protocol/src/minecraft/java/handshake.rs:170-207 | a written address, port and state read back as themselves with the written size |
| Handshake.HandshakeRoundTrip | crates/infrarust_protocol/src/minecraft/java/handshake.rs:170-207 | a written handshake, whatever follows it, reads back as itself with the byte count written |
| Handshake.ToPacket | crates/infrarust_protocol/src/minecraft/java/handshake.rs:149-156 | encoding into a packet fails exactly when the handshake cannot be written, and changes only the packet's data |
| Handshake.ToPacketData | crates/infrarust_protocol/src/minecraft/java/handshake.rs:149-156 | `to_packet` appends the handshake as written with the login state, whatever state it holds |
| Handshake.ToPacketFields | crates/infrarust_protocol/src/minecraft/java/handshake.rs:149-156 | the data appended is version, address, port and a VarInt 2, in that order |
| Handshake.FromPacket | crates/infrarust_protocol/src/minecraft/java/handshake.rs:158-167 | a packet whose id is not 0x00 is refused with InvalidData; otherwise its data is read as a handshake |
| Handshake.PacketRoundTrip | crates/infrarust_protocol/src/minecraft/java/handshake.rs:149-167 | a handshake put into a fresh packet with id 0x00 comes back out as itself with the login state, and is then a login request |
| Packet.Validate | crates/infrarust/src/network/packet/base.rs:129-169 | a packet is valid exactly when its data is within 2097151 bytes or encryption is on, an enabled but not yet encrypted state holds no data, and a compression threshold is not negative; an over-long unencrypted packet reports its length and the maximum |
| Packet.EncryptedPacketValidation | crates/infrarust/src/network/packet/base.rs:104-158 | once encryption is enabled only an empty payload is valid until the data is marked encrypted, after which any length is |
| Packet.Encode | crates/infrarust/src/network/packet/base.rs:173-178 | encoding fails exactly when the value cannot be written, and otherwise appends its bytes to the data and changes nothing else |
| Packet.Decode | crates/infrarust/src/network/packet/base.rs:180-184 | a decoded value is what reading from the start of the data gives |
| Packet.EncodeDecode | crates/infrarust/src/network/packet/base.rs:173-184 | a value encoded into a fresh packet decodes back as itself, for any codec that round-trips |
| Packet.DecodeReadsFromStart | crates/infrarust/src/network/packet/base.rs:173-184 | encoding more data after a decodable value does not change what decodes, for a reader that ignores trailing bytes |
| Packet.IntoRawBytes | crates/infrarust/src/network/packet/base.rs:188-201 | the frame is the VarInt of the id-plus-data length, then the id's VarInt, then the data; it fails exactly when either VarInt cannot be written |
| Packet.Build | crates/infrarust/src/network/packet/builder.rs:63-79 | building without an id fails with "Missing packet ID"; otherwise the packet carries the id, the data (empty when none was given) and the builder's states, and is returned exactly when it validates |
| Packet.FromRawBytes | crates/infrarust/src/network/packet/base.rs:203-234 | an accepted frame declared a length in 1..2097151, its data is a suffix of the input of at most that length, and it starts uncompressed and unencrypted |
| Packet.FromRawBytesRejectsLength | crates/infrarust/src/network/packet/base.rs:208-213 | a declared length of zero or less, or above 2097151, is InvalidLength carrying the length as a 64-bit value |
| Packet.FromRawBytesRejectsLongData | crates/infrarust/src/network/packet/base.rs:222-227 | data after the id longer than 0x200000 bytes is InvalidLength with that maximum |
| Packet.RawBytesRoundTrip | crates/infrarust/src/network/packet/base.rs:188-234 | a packet's frame parses back to a packet with the same id and data, uncompressed and unencrypted |
| Packet.FromRawBytesOf | crates/infrarust/src/network/packet/base.rs:203-234 | a length VarInt, an id VarInt and data no longer than the length parse as that id and data |
| LegacyHandshake.ReadLegacyString | crates/infrarust_protocol/src/minecraft/java/legacy/handshake.rs:108-128 | fewer than 2 bytes, or fewer than the 2 + 2n bytes a count of n code units announces, is UnexpectedEof; a string read takes exactly 2 + 2n bytes |
| LegacyHandshake.WriteLegacyString | crates/infrarust_protocol/src/minecraft/java/legacy/handshake.rs:168-191 | a legacy string takes 2 bytes of count plus 2 per UTF-16 code unit |
| LegacyHandshake.LegacyStringRoundTrip | crates/infrarust_protocol/src/minecraft/java/legacy/handshake.rs:108-128 | a written legacy string reads back as itself, whatever follows, with its full size |
| LegacyHandshake.WriteLegacyStringIs | crates/infrarust_protocol/src/minecraft/java/legacy/handshake.rs:168-191 | a legacy string is the big-endian unit count followed by the big-endian code units |
| LegacyHandshake.ReadLegacyStringOf | crates/infrarust_protocol/src/minecraft/java/legacy/handshake.rs:108-128 | a count n followed by 2n bytes that decode as UTF-16 reads as the decoded string |
| LegacyHandshake.ParsePre13 | crates/infrarust_protocol/src/minecraft/java/legacy/handshake.rs:78-106 | a pre-1.3 connection string always gives protocol version 0 |
| LegacyHandshake.Pre13WithoutSemicolon | crates/infrarust_protocol/src/minecraft/java/legacy/handshake.rs:97-105 | without ';' the whole text is the username, the hostname is empty and the port is 25565 |
| LegacyHandshake.Pre13WithoutColon | crates/infrarust_protocol/src/minecraft/java/legacy/handshake.rs:89-96 | "user;host" with no ':' gives that user and host and the port 25565 |
| LegacyHandshake.Pre13Fields | crates/infrarust_protocol/src/minecraft/java/legacy/handshake.rs:78-88 | "user;host:port" gives back the user, the host and the port, even when the host itself holds ':' |
| LegacyHandshake.Pre13BadPort | crates/infrarust_protocol/src/minecraft/java/legacy/handshake.rs:80-81 | a port text that is not an `i32` falls back to 25565 |
| LegacyHandshake.LastSplitUnique | crates/infrarust_protocol/src/minecraft/java/legacy/handshake.rs:80 | splitting at the last occurrence of a character yields the text before it and the text after it, when the latter holds no such character |
| LegacyHandshake.ParseLegacyHandshake | crates/infrarust_protocol/src/minecraft/java/legacy/handshake.rs:15-33 | empty input is InvalidData "Empty legacy handshake data", a first byte other than 0x02 is InvalidData, a lone 0x02 is UnexpectedEof, and a parsed handshake's protocol byte is the second byte |
| LegacyHandshake.ParsePre13Body | crates/infrarust_protocol/src/minecraft/java/legacy/handshake.rs:38-57 | the pre-1.3 form always gives protocol version 0 and needs at least its length byte |
| LegacyHandshake.Parse13Body | crates/infrarust_protocol/src/minecraft/java/legacy/handshake.rs:58-75 | the 1.3+ form keeps the protocol byte it was given |
| LegacyHandshake.Handshake13RoundTrip | crates/infrarust_protocol/src/minecraft/java/legacy/handshake.rs:59-75 | a 1.3+ handshake built from a protocol byte, two strings and a port parses back as itself, whatever follows |
| LegacyHandshake.Build13Is | crates/infrarust_protocol/src/minecraft/java/legacy/handshake.rs:168-191 | the 1.3+ packet is 0x02, the protocol byte, the two legacy strings and the port as a big-endian `i32` |
| LegacyHandshake.Parse13BodyOf | crates/infrarust_protocol/src/minecraft/java/legacy/handshake.rs:58-75 | a body holding two legacy strings and four port bytes parses as those fields |
| LegacyHandshake.ParseHeaderOf | crates/infrarust_protocol/src/minecraft/java/legacy/handshake.rs:15-58 | after 0x02 and a non-zero protocol byte the 1.3+ body parser decides |
| LegacyHandshake.Pre13RoundTrip | crates/infrarust_protocol/src/minecraft/java/legacy/handshake.rs:38-57 | a pre-1.3 packet built from a connection string parses as that string's fields |
| LegacyHandshake.Pre13Layout | crates/infrarust_protocol/src/minecraft/java/legacy/handshake.rs:225-236 | the pre-1.3 packet is 0x02, 0x00, the unit count in one byte, then the big-endian units |
| LegacyHandshake.ParsePre13Of | crates/infrarust_protocol/src/minecraft/java/legacy/handshake.rs:38-57 | 0x02, 0x00, a count n and 2n bytes of UTF-16 parse as the connection string they decode to |
| LegacyHandshake.ByteLength | crates/infrarust_protocol/src/minecraft/java/legacy/handshake.rs:131-162 | fewer than 2 bytes gives None, and a length given is at least 3 |
| LegacyHandshake.ByteLength13 | crates/infrarust_protocol/src/minecraft/java/legacy/handshake.rs:131-162 | for a well-formed 1.3+ packet, whatever follows it, the length computed is the packet's own length |
| LegacyHandshake.ByteLength13Of | crates/infrarust_protocol/src/minecraft/java/legacy/handshake.rs:141-161 | the 1.3+ length is 2 + (2 + 2a) + (2 + 2b) + 4 for string unit counts a and b |
| LegacyHandshake.ByteLengthPre13 | crates/infrarust_protocol/src/minecraft/java/legacy/handshake.rs:136-140 | for a well-formed pre-1.3 packet the length computed is the packet's own length |
| LegacyPing.UsesV1_4ResponseFormat | crates/infrarust_protocol/src/minecraft/java/legacy/ping.rs:25-30 | the 1.4 response format is used for every variant but Beta |
| LegacyPing.Hostname | crates/infrarust_protocol/src/minecraft/java/legacy/ping.rs:32-37 | a hostname is reported exactly for the 1.6 variant, and it is the one the ping carried |
| LegacyPing.ParseLegacyPing | crates/infrarust_protocol/src/minecraft/java/legacy/ping.rs:40-99 | empty input is InvalidData "Empty legacy ping data"; a first byte other than 0xFE is InvalidData; 0xFE alone or followed by anything but 0x01 is Beta; 0xFE 0x01 alone or followed by anything but 0xFA is 1.4; the 1.6 variant needs the prefix 0xFE 0x01 0xFA |
| LegacyPing.ParsePingHost | crates/infrarust_protocol/src/minecraft/java/legacy/ping.rs:78-98 | a parsed PingHost payload is always the 1.6 variant |
| LegacyPing.PingHostRoundTrip | crates/infrarust_protocol/src/minecraft/java/legacy/ping.rs:78-98 | a PingHost packet built from channel, data length, protocol byte, hostname and port parses as the 1.6 variant with that protocol, hostname and port, whatever follows |
| LegacyPing.BuildPingHostIs | crates/infrarust_protocol/src/minecraft/java/legacy/ping.rs:141-181 | the packet is 0xFE 0x01 0xFA, the channel string, the data length, the protocol byte, the hostname string and the port |
| LegacyPing.ParsePingHostOf | crates/infrarust_protocol/src/minecraft/java/legacy/ping.rs:78-122 | a payload of a channel string, two length bytes, a protocol byte, a hostname string and four port bytes parses as those fields; the data length is not checked |
| LegacyKick.EncodeUtf16Be | crates/infrarust_protocol/src/minecraft/java/legacy/kick.rs:40-47 | the encoding has two bytes per UTF-16 code unit |
| LegacyKick.DecodeUtf16Be | crates/infrarust_protocol/src/minecraft/java/legacy/kick.rs:49-68 | odd-length data is InvalidData "UTF-16BE data must have even length"; a decoded string is what the big-endian units decode to as UTF-16; other failures are InvalidData |
| LegacyKick.DecodeEncodeUtf16Be | crates/infrarust_protocol/src/minecraft/java/legacy/kick.rs:40-68 | decoding the encoding of any string gives it back |
| LegacyKick.EncodeDecodeUtf16Be | crates/infrarust_protocol/src/minecraft/java/legacy/kick.rs:40-68 | re-encoding a successfully decoded byte sequence gives the same bytes |
| LegacyKick.EncodeKickPacket | crates/infrarust_protocol/src/minecraft/java/legacy/kick.rs:26-38 | a kick packet is 0xFF, the code unit count modulo 2^16 as a big-endian `u16`, and the UTF-16BE payload, so its length is 3 + 2 × units |
| LegacyKick.KickRoundTrip | crates/infrarust_protocol/src/minecraft/java/legacy/kick.rs:26-68 | the payload of a kick packet with fewer than 2^16 code units can be read back from it |
| LegacyKick.KickPayloadOf | crates/infrarust_protocol/src/minecraft/java/legacy/kick.rs:26-38 | a kick packet whose count n is followed by 2n decodable bytes carries the decoded string |
| LegacyKick.KickCountWraps | crates/infrarust_protocol/src/minecraft/java/legacy/kick.rs:30-31 | for 2^16 or more code units the count field wraps, so it announces fewer bytes than the packet holds |
| LegacyKick.NumeralHasNoSeparators | crates/infrarust_protocol/src/minecraft/java/legacy/kick.rs:7-24 | the decimal text of a player count holds neither the section sign nor NUL, so it cannot disturb the field separators |
| LegacyKick.BetaKickFields | crates/infrarust_protocol/src/minecraft/java/legacy/kick.rs:7-10 | the Beta kick payload splits at the section sign into the MOTD, the online count and the maximum |
| LegacyKick.V1_4KickFields | crates/infrarust_protocol/src/minecraft/java/legacy/kick.rs:12-24 | the 1.4 kick payload splits at NUL into the section sign followed by "1", the protocol version, the version name, the MOTD, the online count and the maximum |
| ProxyProtocol.DefaultReader | crates/infrarust/src/network/proxy_protocol/reader.rs:22-29 | the default reader is disabled, waits 5 seconds and allows every version |
| ProxyProtocol.PeekBuffer | crates/infrarust/src/network/proxy_protocol/reader.rs:49-50 | the peek buffer holds the first 12 bytes of the stream, zero-filled past its end |
| ProxyProtocol.Detect | crates/infrarust/src/network/proxy_protocol/reader.rs:52-67 | a stream is taken for version 1 exactly when it starts with "PROXY " and for version 2 exactly when it starts with the 12-byte binary signature |
| ProxyProtocol.ReadHeader | crates/infrarust/src/network/proxy_protocol/reader.rs:40-80 | a disabled reader reports no address and reads nothing; a peek timeout is the error "Timeout waiting for proxy protocol header"; a failed peek is an I/O error; a stream with neither signature gives no address and reads nothing; bytes are consumed only after a signature was seen, and never more than the stream holds |
| ProxyProtocol.ScanV1 | crates/infrarust/src/network/proxy_protocol/reader.rs:83-99 | the line read stops at the first CRLF or after 108 bytes, whichever is first; an early end of the stream is the I/O error "early eof" |
| ProxyProtocol.ReadV1Header | crates/infrarust/src/network/proxy_protocol/reader.rs:82-171 | a version 1 header fails with the line-reading error, or is decided by the field checks as written on the line's whitespace-separated fields; an accepted header consumes between 1 and 108 bytes and ends at a CRLF unless it hit the 108-byte limit |
| ProxyProtocol.V1Text | crates/infrarust/src/network/proxy_protocol/reader.rs:82-111 | the line is the scan up to the first CRLF or 108 bytes; an early end of the stream keeps the scan's I/O error and bytes that are not UTF-8 are "Invalid UTF-8"; the text returned decodes exactly the bytes scanned |
| ProxyProtocol.ReadV1HeaderIntended | crates/infrarust/src/network/proxy_protocol/reader.rs:82-171 | with the corrected field checks, the reader differs from the code as written only by accepting a header the code refuses, and then with no address; every header carrying an address is read as the code reads it |
| ProxyProtocol.V1SourceAsWritten | crates/infrarust/src/network/proxy_protocol/reader.rs:114-171 | fewer than 6 fields is "Invalid v1 format"; a first field other than PROXY is "Missing PROXY prefix"; an accepted header has a numeric source port in field 4 and its address is decided by the protocol field |
| ProxyProtocol.V1Source | crates/infrarust/src/network/proxy_protocol/reader.rs:114-171 | the corrected parser gives no address for "PROXY UNKNOWN" with any number of further fields, and agrees with the code as written on every other header |
| ProxyProtocol.V1Address | crates/infrarust/src/network/proxy_protocol/reader.rs:130-171 | UNKNOWN gives no address; TCP4 and TCP6 give the source address parsed as IPv4 or IPv6 with the source port; any other protocol is "Unknown protocol: " followed by its name |
| ProxyProtocol.Family | crates/infrarust/src/network/proxy_protocol/reader.rs:198-199 | the family is the upper nibble of the family byte |
| ProxyProtocol.FamilyHex | crates/infrarust/src/network/proxy_protocol/reader.rs:250-255 | an unknown family is named as "0x" and two hexadecimal digits, the second 0 |
| ProxyProtocol.ReadV2Header | crates/infrarust/src/network/proxy_protocol/reader.rs:178-196 | fewer than 16 bytes is "early eof"; an accepted header starts with the signature and consumes 16 plus the big-endian length in bytes 14-15; a stream shorter than that is "early eof" |
| ProxyProtocol.V2Address | crates/infrarust/src/network/proxy_protocol/reader.rs:198-257 | AF_UNIX and AF_UNSPEC give no address; IPv4 needs 12 address bytes and takes the port from bytes 8-9; IPv6 needs 36 and takes it from bytes 32-33; too few bytes is InvalidLength; any other family is "Unknown family: 0xN0" |
| ProxyProtocol.ReadV1Line | crates/infrarust/src/network/proxy_protocol/reader.rs:40-171 | a well-formed version 1 line, whatever follows it, is read whole and decided by the field checks as written; the intended reader decides the same line by the corrected checks |
| ProxyProtocol.V1LineShape | crates/infrarust/src/network/proxy_protocol/reader.rs:83-99 | a version 1 line of words is ASCII, starts with "PROXY ", ends with CRLF and holds no other CR |
| ProxyProtocol.V1LineScan | crates/infrarust/src/network/proxy_protocol/reader.rs:83-99 | the line scan of such a line stops right after its CRLF |
| ProxyProtocol.V1LineDetect | crates/infrarust/src/network/proxy_protocol/reader.rs:52-56 | a stream starting with "PROXY " is taken for version 1 |
| ProxyProtocol.ReadV1HeaderOf | crates/infrarust/src/network/proxy_protocol/reader.rs:82-171 | a scanned line that is valid UTF-8 is split at whitespace and decided by the field checks, consuming the line, both as written and as intended |
| ProxyProtocol.ReadHeaderV1Of | crates/infrarust/src/network/proxy_protocol/reader.rs:40-56 | an enabled reader that detects version 1 reads a version 1 header |
| ProxyProtocol.ScanToCrlf | crates/infrarust/src/network/proxy_protocol/reader.rs:83-99 | the scan from any position before a CRLF with no earlier CR stops right after that CRLF |
| ProxyProtocol.SplitWords | crates/infrarust/src/network/proxy_protocol/reader.rs:114 | splitting a line of words at whitespace gives back the words |
| ProxyProtocol.V1Tcp4RoundTrip | crates/infrarust/src/network/proxy_protocol/reader.rs:40-171 | a "PROXY TCP4 src dst sport dport" line read by an enabled reader gives the source IPv4 address and port, consuming the line |
| ProxyProtocol.V1Tcp4Source | crates/infrarust/src/network/proxy_protocol/reader.rs:130-150 | the TCP4 fields give the source address and port |
| ProxyProtocol.V1Tcp6RoundTrip | crates/infrarust/src/network/proxy_protocol/reader.rs:40-171 | a TCP6 line whose source parses as IPv6 gives that address and the source port, consuming the line |
| ProxyProtocol.V1Tcp6Source | crates/infrarust/src/network/proxy_protocol/reader.rs:150-165 | the TCP6 fields give the parsed IPv6 source and the source port |
| ProxyProtocol.V1ShortUnknown | crates/infrarust/src/network/proxy_protocol/reader.rs:114-120 | the two-field "PROXY UNKNOWN" is refused as written, and gives no address when corrected |
| ProxyProtocol.V1ShortUnknownLine | crates/infrarust/src/network/proxy_protocol/reader.rs:40-171 | the 15-byte line "PROXY UNKNOWN\r\n" is refused with "Invalid v1 format" by the reader as written, and read whole with no address by the intended reader |
| ProxyProtocol.ReadV2Frame | crates/infrarust/src/network/proxy_protocol/reader.rs:40-257 | a version 2 frame read by an enabled reader consumes 16 bytes plus its address block and is decided by the family |
| ProxyProtocol.V2Ipv4RoundTrip | crates/infrarust/src/network/proxy_protocol/reader.rs:178-240 | a version 2 IPv4 frame gives the source address and port and consumes 28 bytes plus any trailing TLVs |
| ProxyProtocol.V2Ipv4Block | crates/infrarust/src/network/proxy_protocol/reader.rs:201-220 | an IPv4 address block is source, destination, source port, destination port, then TLVs |
| ProxyProtocol.V2Ipv6RoundTrip | crates/infrarust/src/network/proxy_protocol/reader.rs:178-240 | a version 2 IPv6 frame gives the source address and port and consumes 52 bytes plus any trailing TLVs |
| ProxyProtocol.V2Ipv6Block | crates/infrarust/src/network/proxy_protocol/reader.rs:221-240 | an IPv6 address block is source, destination, source port, destination port, then TLVs |
| ProxyProtocol.V2NoAddress | crates/infrarust/src/network/proxy_protocol/reader.rs:241-249 | a frame of family AF_UNSPEC or AF_UNIX gives no address and consumes the whole frame |
| Routing.GlobLiteral | crates/infrarust/src/core/config/service.rs:50-51 | a pattern without '*' or '?' matches exactly the text equal to it |
| Routing.GlobUpperNeverMatchesLower | crates/infrarust/src/core/config/service.rs:38-51 | a pattern holding an upper-case ASCII letter never matches a text without one, such as the lowercased domain |
| Routing.LowerKeepsMarks | crates/infrarust/src/core/config/service.rs:94-99 | lowercasing a pattern neither adds nor removes wildcards or dots, so the score can be computed on either |
| Routing.LabelScore | crates/infrarust/src/core/config/service.rs:93-117 | labels without wildcards score 10000; otherwise the score lies between the label count and 101 per label less 100 |
| Routing.SpecificityOfPattern | crates/infrarust/src/core/config/service.rs:93-117 | a pattern scores as its '.'-separated labels do |
| Routing.SpecificityOfLabels | crates/infrarust/src/core/config/service.rs:102-116 | the score of labels joined by '.' is the score of those labels |
| Routing.LabelScoreWildcard | crates/infrarust/src/core/config/service.rs:101-116 | a wildcard pattern scores 100 per label without wildcards plus the label count |
| Routing.LiteralLabelRaisesScore | crates/infrarust/src/core/config/service.rs:101-116 | adding a literal label to a wildcard pattern raises its score by 101, so a deeper wildcard outranks a shallower one |
| Routing.WildcardBelowExact | crates/infrarust/src/core/config/service.rs:96-116 | a wildcard pattern with fewer than 100 labels scores below an exact pattern |
| Routing.HundredLabelsTieExact | crates/infrarust/src/core/config/service.rs:96-116 | a wildcard pattern of 100 labels, one of them a wildcard, ties with an exact pattern at 10000 |
| Routing.BestScore | crates/infrarust/src/core/config/service.rs:49-64 | a configuration has a best score exactly when one of its patterns matches the domain |
| Routing.BestScoreIsMax | crates/infrarust/src/core/config/service.rs:49-64 | the best score is the score of a matching pattern and no matching pattern scores higher |
| Routing.FindServerByDomain | crates/infrarust/src/core/config/service.rs:33-90 | the lookup finds nothing exactly when no pattern of any configuration matches the ASCII-lowercased domain; otherwise it returns a configuration whose best matching score is at least every other configuration's |
| Routing.LeadsAll | crates/infrarust/src/core/config/service.rs:49-80 | once every configuration has been looked at, the configuration kept is a best match, and none is kept exactly when none matched |
| Routing.ExactMatchWins | crates/infrarust/src/core/config/service.rs:96-116 | when some configuration lists the domain itself and wildcard patterns have fewer than 100 labels, the configuration chosen lists the domain exactly |
| Routing.CapitalizedPatternsNeverMatch | crates/infrarust/src/core/config/service.rs:38-51 | a configuration whose patterns all hold upper-case letters is never chosen, because only the domain is lowercased |
| Routing.FindServerByIp | crates/infrarust/src/core/config/service.rs:120-141 | a configuration is found exactly when one lists the address, and the one found lists it |
| Routing.UpdateConfigurations | crates/infrarust/src/core/config/service.rs:148-216 | an empty update changes nothing; afterwards the keys are the old keys and the updated ids; configurations not updated stay as they were; every entry stays filed under its own id |
| Routing.UpdateLastWins | crates/infrarust/src/core/config/service.rs:198-212 | the last update with an id is the configuration stored under it |
| Routing.RemoveConfiguration | crates/infrarust/src/core/config/service.rs:248-291 | removal deletes that id only, leaves every other configuration as it was, and does nothing for an unknown id |
| Routing.RemoveUndoesUpdate | crates/infrarust/src/core/config/service.rs:148-291 | adding or replacing a configuration and then removing its id leaves the store as removing the id alone would |
| Config.DefaultMotd | crates/infrarust_config/src/models/server.rs:52-66 | the default MOTD is disabled, has no favicon, empty texts, zero counts and no player samples |
| Config.DefaultServerConfig | crates/infrarust_config/src/models/server.rs:141-157 | the default server configuration has no id, domains or addresses, does not send the PROXY header, would use version 2, proxies in passthrough mode and has no filters or MOTDs |
| ConfigUpdates.ConfigsAreEqualIsEquivalence | crates/infrarust_config/src/provider/docker/updates.rs:86-114 | the comparison is reflexive, symmetric and transitive |
| ConfigUpdates.AddressOrderIgnored | crates/infrarust_config/src/provider/docker/updates.rs:87-90 | addresses are compared as sets, so reordering or repeating them changes nothing |
| ConfigUpdates.AddressChangeDetected | crates/infrarust_config/src/provider/docker/updates.rs:87-90 | an address present in one configuration and not the other makes them differ |
| ConfigUpdates.DomainOrderCounts | crates/infrarust_config/src/provider/docker/updates.rs:91-95 | domains are compared as ordered lists, so any difference in them, order included, makes the configurations differ |
| ConfigUpdates.UncomparedFields | crates/infrarust_config/src/provider/docker/updates.rs:86-114 | the config id and the MOTDs are not compared, and filters only by whether they are present |
| ConfigUpdates.SendUpdate | crates/infrarust_config/src/provider/docker/updates.rs:11-46 | nothing is sent exactly when the new configuration equals the one last sent for the key, or a removal names an untracked key, and then nothing changes; otherwise the update is sent and the key now holds the new configuration or is dropped |
| ConfigUpdates.SendUpdateDeduplicates | crates/infrarust_config/src/provider/docker/updates.rs:14-34 | sending the same update twice in a row sends it at most once |
| ConfigUpdates.SendUpdateTracksKey | crates/infrarust_config/src/provider/docker/updates.rs:36-46 | after a send the key is tracked exactly when a configuration was given, and holds one equal to it |
| Motd.TimeText | crates/infrarust/src/server/motd/state.rs:38-47 | up to 60 seconds left, the time reads "N seconds" |
| Motd.ShutdownTextInSeconds | crates/infrarust/src/server/motd/state.rs:38-47 | an imminent shutdown within 60 seconds puts "N seconds" into the shutdown message |
| Motd.DefaultTextFixed | crates/infrarust/src/server/motd/state.rs:26-62 | every state other than a shutdown more than a minute away has a fixed text that does not depend on the minutes formatting |
| Motd.UseDefaultFavicon | crates/infrarust/src/server/motd/state.rs:65-78 | the default favicon is used exactly for Offline, Starting, Online and UnknownServer |
| Motd.MotdForState | crates/infrarust/src/server/motd/generator.rs:108-124 | UnknownServer selects no configured MOTD |
| Motd.MotdForStateSelectsOwnField | crates/infrarust/src/server/motd/generator.rs:108-124 | each other state reads its own field of the configured MOTDs, and setting one field does not change what a state with another field reads |
| Motd.MotdResponse | crates/infrarust/src/server/motd/generator.rs:19-45 | the response carries the MOTD's version name, protocol, player counts, samples and text, each defaulting to empty or zero; a custom favicon is used when it parses, and otherwise the built-in one exactly when it is asked for |
| Motd.DefaultMotdWithText | crates/infrarust/src/server/motd/generator.rs:68-78 | the built-in MOTD carries the given text, the version name "Infrarust", zero counts, no samples, no favicon, and is disabled |
| Motd.GenerateForState | crates/infrarust/src/server/motd/generator.rs:80-106 | without a configured MOTD the state's own text is used; a configured MOTD is used as given except during an imminent shutdown, whose text has "${seconds_remaining}" replaced by the seconds left, or the state's text when it has none; the built-in favicon appears only without configuration or in a state that allows it |
| Motd.BuiltInResponseHasInfrarustFavicon | crates/infrarust/src/server/motd/generator.rs:82-104 | without a configured MOTD the response carries the built-in favicon |
| Motd.ShutdownTextWithoutPlaceholder | crates/infrarust/src/server/motd/generator.rs:88-157 | a configured shutdown text without the placeholder is shown unchanged |
| Motd.ResponseForConfiguredState | crates/infrarust/src/server/motd/generator.rs:80-124 | outside a shutdown, the description is the text of the MOTD configured for the state, or the state's own text when none is |
| ServerStatus.ParseServerState | crates/infrarust_server_manager/src/monitor/status.rs:15-27 | the state is read case-insensitively; "offline" and "stopped" both mean Stopped, and any other unknown text means Unknown |
| ServerStatus.ParseServerStateIgnoresCase | crates/infrarust_server_manager/src/monitor/status.rs:15-27 | two spellings that differ only in ASCII case give the same state |
| ServerStatus.Elapsed | crates/infrarust_server_manager/src/monitor/status.rs:57-64 | elapsed time is the difference of the instants, and zero when the clock went backwards |
| ServerStatus.NewStatus | crates/infrarust_server_manager/src/monitor/status.rs:40-48 | a new status is Unknown, has no uptime and no crash time, a crash count of 0, and was checked now |
| ServerStatus.UpdateState | crates/infrarust_server_manager/src/monitor/status.rs:51-67 | the state and check time are set; the crash count grows by one, wrapping at 2^32, and the crash time is set only on a transition into Crashed; entering Running resets uptime to 0 and staying Running adds the time since the last check |
| ServerStatus.RepeatedCrashCountsOnce | crates/infrarust_server_manager/src/monitor/status.rs:52-76 | reporting Crashed twice counts one crash, keeps the first crash time, and is crashed and not running |
| ServerStatus.UptimeAccumulates | crates/infrarust_server_manager/src/monitor/status.rs:57-64 | staying Running from t0 to t2 accumulates an uptime of t2 - t0 |
| ServerStatus.DefaultDetector | crates/infrarust_server_manager/src/monitor/crash_detection.rs:6-23 | the default detector needs 3 crashes within 300 seconds |
| ServerStatus.IsInCrashLoop | crates/infrarust_server_manager/src/monitor/crash_detection.rs:34-42 | a crash loop holds exactly when the crash count reaches the threshold and the last crash is within the window; with no recorded crash it never holds |
| ServerStatus.Reset | crates/infrarust_server_manager/src/monitor/crash_detection.rs:44-46 | reset keeps the threshold and window and only restarts the check clock |
| ServerStatus.FreshStatusNoCrashLoop | crates/infrarust_server_manager/src/monitor/crash_detection.rs:34-42 | a new status is never in a crash loop |
| ServerStatus.CrashJustNow | crates/infrarust_server_manager/src/monitor/crash_detection.rs:34-46 | right after a crash the loop holds exactly when the count reached the threshold, and reset does not change the verdict |
| ServerStatus.ThreeCrashesMakeALoop | crates/infrarust_server_manager/src/monitor/crash_detection.rs:15-42 | three crashes, the last within the window, make a crash loop for the default detector |
| StatusCache.FromSharedConfig | crates/infrarust/src/server/cache.rs:39-45 | the cache starts empty; its time to live is the configured number of seconds, or 30; its size is the configured one, or 1000; its MOTD for unreachable servers is the configured one, or the default |
| StatusCache.CheckCache | crates/infrarust/src/server/cache.rs:91-106 | an entry is served exactly when one is stored for the key and expires after now, and it is the stored response |
| StatusCache.CleanExpired | crates/infrarust/src/server/cache.rs:133-152 | cleaning keeps exactly the entries that expire after now, unchanged |
| StatusCache.RemoveOldest | crates/infrarust/src/server/cache.rs:154-176 | removal takes out only whole entries, count of them (at least one, at most all), and never one that expires later than an entry kept |
| StatusCache.UpdateCache | crates/infrarust/src/server/cache.rs:108-131 | the new entry expires at now plus the time to live; the other entries kept are unexpired ones from before; with room to spare no unexpired entry is dropped; those dropped expire no later than those kept; the size stays within a bound of at least 1 |
| StatusCache.StoredResponseServed | crates/infrarust/src/server/cache.rs:91-123 | a response just stored is served until now plus the time to live and not after |
| StatusCache.GetStatusResponse | crates/infrarust/src/server/cache.rs:51-89 | a hit is returned without changing the cache; on a miss a fetched response is returned and stored, and served next time when the time to live is positive; a failed fetch returns the fallback response and changes nothing |
| Bans.NewBan | crates/infrarust_ban_system/src/lib.rs:61-86 | a new ban keeps the given fields and is created now; it never expires without a duration; with one, it expires exactly that long later when the `u64` sum does not overflow, and otherwise at the sum less 2^64, before its creation |
| Bans.ActiveIffNotExpired | crates/infrarust_ban_system/src/lib.rs:88-99 | a ban is active exactly when it is not expired |
| Bans.ExpiryIsPermanent | crates/infrarust_ban_system/src/lib.rs:88-99 | a permanent ban never expires, and an expired ban stays expired |
| Bans.MatchesIp | crates/infrarust_ban_system/src/lib.rs:101-107 | a ban matches an address exactly when it carries that address |
| Bans.MatchesUuid | crates/infrarust_ban_system/src/lib.rs:109-115 | a ban matches a UUID exactly when it carries that UUID |
| Bans.MatchesUsername | crates/infrarust_ban_system/src/lib.rs:117-123 | a ban matches a name exactly when it carries a name equal to it ignoring ASCII case; a ban without a name matches none |
| Bans.UsernameMatchIgnoresCase | crates/infrarust_ban_system/src/lib.rs:117-123 | a ban on a name matches every spelling of it that differs only in case |
| Bans.TimeUntilExpiry | crates/infrarust_ban_system/src/lib.rs:125-138 | a permanent ban has no time left; a temporary one has the time until its expiry, or zero once past it |
| Bans.TimeLeftZeroIffExpired | crates/infrarust_ban_system/src/lib.rs:88-138 | a temporary ban has zero time left exactly when it is expired |
| Bans.NewBanCountsDown | crates/infrarust_ban_system/src/lib.rs:61-138 | a ban made now for a duration whose end fits a `u64` has that duration left and stays active until it runs out |
| Bans.NewBanWrapsExpired | crates/infrarust_ban_system/src/lib.rs:74-138 | a ban whose end overflows a `u64` is expired, inactive and has no time left from the moment it is made |
| Bans.NewQuery | crates/infrarust_ban_system/src/lib.rs:593-599 | a new search query sets no criterion and asks for page 0 of 50 |
| BanIndex.FileUnder | crates/infrarust_ban_system/src/index.rs:44-76 | filing an id under a key adds it to that key's bucket and leaves every other bucket alone |
| BanIndex.Unfile | crates/infrarust_ban_system/src/index.rs:78-126 | unfiling an id takes it out of its bucket, drops the bucket when it empties, and leaves every other bucket alone |
| BanIndex.Add | crates/infrarust_ban_system/src/index.rs:44-76 | an added ban is stored by id and joins the buckets of its address, UUID, lowercased name, issuer and expiry |
| BanIndex.Remove | crates/infrarust_ban_system/src/index.rs:78-126 | removing an absent id returns nothing and changes nothing; otherwise it returns the ban and drops its id |
| BanIndex.EmptyConsistent | crates/infrarust_ban_system/src/index.rs:27-42 | the empty index is consistent: every bucket lists exactly the stored bans with that key |
| BanIndex.AddConsistent | crates/infrarust_ban_system/src/index.rs:44-76 | adding a ban with a new id keeps the index consistent |
| BanIndex.RemoveConsistent | crates/infrarust_ban_system/src/index.rs:78-126 | removing keeps the index consistent |
| BanIndex.AddReachable | crates/infrarust_ban_system/src/index.rs:44-76 | after an add the ban is found by id, by address, by UUID, by any case of its name, and by issuer |
| BanIndex.RemoveErases | crates/infrarust_ban_system/src/index.rs:78-126 | after a remove the id is in no index at all |
| BanIndex.GetById | crates/infrarust_ban_system/src/index.rs:128-130 | a ban is found by id exactly when one is stored under it |
| BanIndex.Collect | crates/infrarust_ban_system/src/index.rs:132-136 | collecting a bucket gives the ids in it that are stored |
| BanIndex.LookupsExact | crates/infrarust_ban_system/src/index.rs:138-165 | in a consistent index, the lookups by address, UUID, name and issuer give exactly the bans that match |
| BanIndex.ActiveExpiredPartition | crates/infrarust_ban_system/src/index.rs:174-215 | the expired and active lists give exactly the expired and active bans, and together they split all bans in two |
| BanIndex.IsIpBanned | crates/infrarust_ban_system/src/index.rs:315-322 | an address is banned exactly when some ban filed under it is active |
| BanIndex.IsUuidBanned | crates/infrarust_ban_system/src/index.rs:324-331 | a UUID is banned exactly when some ban filed under it is active |
| BanIndex.IsUsernameBanned | crates/infrarust_ban_system/src/index.rs:333-341 | a name is banned exactly when some ban filed under its lowercase form is active |
| BanIndex.BannedIffActiveMatch | crates/infrarust_ban_system/src/index.rs:308-341 | in a consistent index, a key is banned exactly when some stored ban matches it and is active, names compared ignoring case |
| BanIndex.Search | crates/infrarust_ban_system/src/index.rs:221-306 | every search result is a stored ban meeting every criterion given, the reason text compared ignoring case |
| BanIndex.SearchComplete | crates/infrarust_ban_system/src/index.rs:221-306 | in a consistent index every stored ban meeting the criteria is found |
| BanIndex.Count | crates/infrarust_ban_system/src/index.rs:343-345 | the count is the number of distinct ids stored |
| BanStore.AddBan | crates/infrarust_ban_system/src/file/adapter.rs:11-16 | an added ban is found by its id and no other stored ban changes |
| BanStore.AddBansBatch | crates/infrarust_ban_system/src/file/adapter.rs:18-25 | a batch adds the ids of all its bans, leaves bans whose ids it does not name unchanged, and an empty batch changes nothing |
| BanStore.AddBansBatchLastWins | crates/infrarust_ban_system/src/file/adapter.rs:18-25 | each ban of a batch that no later ban of the batch replaces is stored under its id |
| BanStore.BatchStepLast | crates/infrarust_ban_system/src/file/adapter.rs:18-25 | the first ban stays stored when no later ban shares its id, as does every ban the rest stores |
| BanStore.AddBansBatchConsistent | crates/infrarust_ban_system/src/file/adapter.rs:18-25 | a batch of bans with fresh, distinct ids keeps the index consistent |
| BanStore.RemoveBan | crates/infrarust_ban_system/src/file/adapter.rs:27-62 | removing an id that is not stored is NotFound; otherwise the ban is returned and its id is gone |
| BanStore.GetBan | crates/infrarust_ban_system/src/file/adapter.rs:65-70 | a ban is returned exactly when its id is stored, and otherwise NotFound |
| BanStore.RemoveUndoesAdd | crates/infrarust_ban_system/src/file/adapter.rs:11-62 | removing a freshly added ban returns it and leaves the stored bans as before |
| BanStore.ReasonAmong | crates/infrarust_ban_system/src/file/adapter.rs:99-123 | a reason is given exactly when one of the bans looked at is active, and it is the reason of such a ban |
| BanStore.ReasonForIp | crates/infrarust_ban_system/src/file/adapter.rs:99-123 | a reason is given for an address exactly when it is banned, and it is the reason of an active ban on it |
| BanStore.ReasonForUuid | crates/infrarust_ban_system/src/file/adapter.rs:125-149 | a reason is given for a UUID exactly when it is banned, and it is the reason of an active ban on it |
| BanStore.ReasonForUsername | crates/infrarust_ban_system/src/file/adapter.rs:151-178 | a reason is given for a name exactly when it is banned, and it is the reason of an active ban on it |
| BanStore.Paginate | crates/infrarust_ban_system/src/file/adapter.rs:190-208 | a page holds the items from page × size on, at most size of them, in order, and reports the full total; a page past the end is empty |
| BanStore.Window | crates/infrarust_ban_system/src/file/adapter.rs:199-206 | a window holds the items from its start on, at most its size, and is empty past the end |
| BanStore.PagesCover | crates/infrarust_ban_system/src/file/adapter.rs:190-208 | every item appears on page k / size at position k mod size |
| BanStore.Enumerate | crates/infrarust_ban_system/src/file/adapter.rs:180-188 | listing a set of ids gives each exactly once |
| BanStore.Entries | crates/infrarust_ban_system/src/file/adapter.rs:180-188 | listing ids gives the stored ban of each, in order |
| BanStore.ActiveBansPaged | crates/infrarust_ban_system/src/file/adapter.rs:190-208 | the page reports the number of active bans; it is empty from page × size on, otherwise it holds size bans or those left before the end; every item is an active stored ban, and in a consistent index no two items share an id |
| BanStore.SearchBans | crates/infrarust_ban_system/src/file/adapter.rs:247-274 | the page reports the number of matches; it is empty from page × size on, otherwise it holds size bans or those left before the end; every item is a stored ban meeting every criterion of the query, and in a consistent index no two items share an id |
| BanStore.PageOf | crates/infrarust_ban_system/src/file/adapter.rs:190-208 | a page of the bans of a set of ids reports the set's size, holds size bans or those left before the end, holds only bans of those ids, and in a consistent index no two of them share an id |
| BanStore.PagedEntries | crates/infrarust_ban_system/src/file/adapter.rs:199-206 | item j of a page is the ban of the id at position page × size + j |
| BanStore.PageMembers | crates/infrarust_ban_system/src/file/adapter.rs:199-206 | every ban on a page is the ban of one of the ids paged |
| BanStore.PageDistinct | crates/infrarust_ban_system/src/file/adapter.rs:199-206 | in a consistent index the bans on a page of distinct ids have distinct ids |
| BanStore.IdsWhere | crates/infrarust_ban_system/src/file/adapter.rs:276-316 | the ids counted for a statistic are exactly the stored bans with that property |
| BanStore.GetStatistics | crates/infrarust_ban_system/src/file/adapter.rs:276-316 | the statistics count all bans, the active ones, the expired ones, the permanent and the temporary ones, and those with an address, a UUID and a name |
| BanStore.StatisticsAddUp | crates/infrarust_ban_system/src/file/adapter.rs:276-316 | permanent plus temporary bans, and active plus expired bans, each make up the total, and each key's count is within it |
| BanStore.RemoveAll | crates/infrarust_ban_system/src/file/adapter.rs:215-229 | removing a set of ids keeps the index consistent, drops exactly those ids and leaves the rest unchanged |
| BanStore.ClearExpired | crates/infrarust_ban_system/src/file/adapter.rs:215-229 | clearing reports how many bans had expired, removes exactly those, and keeps the active ones unchanged and consistent |
| BanStore.RemoveFound | crates/infrarust_ban_system/src/lib.rs:329-369 | removing no bans is NotFound; otherwise exactly the bans found are removed and returned and the index stays consistent |
| BanStore.RemoveBansByIp | crates/infrarust_ban_system/src/lib.rs:371-379 | removing by address is NotFound when no ban is filed under it; otherwise it returns exactly the bans filed under the address, removes those and nothing else, leaves the index consistent, and afterwards the address is banned at no time |
| BanStore.RemoveBansByUuid | crates/infrarust_ban_system/src/lib.rs:381-389 | removing by UUID is NotFound when no ban is filed under it; otherwise it returns exactly the bans filed under the UUID, removes those and nothing else, leaves the index consistent, and afterwards the UUID is banned at no time |
| BanStore.RemoveBansByUsername | crates/infrarust_ban_system/src/lib.rs:391-399 | removing by name is NotFound when no ban is filed under it in any ASCII case; otherwise it returns exactly the bans filed under the name, removes those and nothing else, leaves the index consistent, and afterwards the name is banned at no time |
| Durations.SplitNumeralUnit | crates/infrarust/src/cli/commands/ban.rs:248-257 | a string of digits followed by a unit without digits splits back into those two parts |
| Durations.DigitsOthersAppend | crates/infrarust/src/cli/commands/ban.rs:248-257 | the digits and the other characters of a concatenation are those of each part, concatenated |
| Durations.UnitSeconds | crates/infrarust/src/cli/commands/ban.rs:263-275 | a unit is known exactly when it is one of s, m, h, d, w, mo and y; they stand for a second, 60 seconds, 60 minutes, 24 hours, 7 days, 30 days and 365 days |
| Durations.ParseDuration | crates/infrarust/src/cli/commands/ban.rs:243-277 | blank input is EmptyDuration; input with no digit is NoNumericValue; digits beyond a `u64` are InvalidNumericValue; an unknown unit is reported with its text; a duration parsed has a known unit, fits a `u64`, and is the number times the unit's seconds, wrapped modulo 2^64 |
| Durations.ParseSplit | crates/infrarust/src/cli/commands/ban.rs:243-277 | a lower-case, trimmed input parses as its digits' value times its unit's seconds, wrapped to 64 bits, or is an unknown unit |
| Durations.NumeralUnitForm | crates/infrarust/src/cli/commands/ban.rs:244-257 | a number followed by a lower-case unit is unchanged by trimming and lowercasing and splits into that number and unit |
| Durations.ParseNumeralUnit | crates/infrarust/src/cli/commands/ban.rs:243-277 | a number followed by a known unit parses as the number times the unit's seconds, when that fits 64 bits |
| Durations.BareNumberRefused | crates/infrarust/src/cli/commands/ban.rs:257-275 | a number without a unit is refused as an unknown, empty, unit |
| Durations.FormatDuration | crates/infrarust/src/cli/commands/ban.rs:280-286 | under a minute the text is "N seconds" |
| Durations.FormatWholeUnits | crates/infrarust/src/cli/commands/ban.rs:280-315 | a whole number of units below the next threshold is shown in that unit |
| Durations.FormatMinutes | crates/infrarust/src/cli/commands/ban.rs:288-291 | 1 to 59 whole minutes read "N minutes" |
| Durations.FormatHours | crates/infrarust/src/cli/commands/ban.rs:288-296 | 1 to 23 whole hours read "N hours" |
| Durations.FormatDays | crates/infrarust/src/cli/commands/ban.rs:293-301 | 1 to 6 whole days read "N days" |
| Durations.FormatWeeks | crates/infrarust/src/cli/commands/ban.rs:298-306 | 1 to 3 whole weeks read "N weeks" |
| Durations.FormatMonths | crates/infrarust/src/cli/commands/ban.rs:303-311 | 1 to 11 whole 30-day months read "N months" |
| Durations.FormatYears | crates/infrarust/src/cli/commands/ban.rs:308-315 | one or more whole 365-day years read "N years" |
| Durations.FormatParsedDuration | crates/infrarust/src/cli/commands/ban.rs:243-315 | a duration typed as a number and a unit, below the next unit's threshold, is shown back as that number and the unit's word |
| Logging.MaxLevel | crates/infrarust/src/telemetry/log_filter.rs:74-80 | the more verbose of two levels is one of them and at least as verbose as both |
| Logging.VerbosityInjective | crates/infrarust/src/telemetry/log_filter.rs:74-80 | distinct levels have distinct verbosity, so the ordering is total |
| Logging.ParseLevel | crates/infrarust/src/telemetry/log_filter.rs:298-307 | a level is recognised exactly when the lowercased text is trace, debug, info, warn, warning or error, and both warn and warning mean WARN |
| Logging.ParseLevelName | crates/infrarust/src/telemetry/log_filter.rs:298-321 | each level's own name parses back as that level |
| Logging.ParseLevelIgnoresCase | crates/infrarust/src/telemetry/log_filter.rs:298-321 | parsing ignores ASCII case |
| Logging.FromStr | crates/infrarust_config/src/models/logging.rs:85-104 | a name that is not one of the 13 built-in names becomes Custom, and the name of the type made is the text it came from |
| Logging.FromAsStr | crates/infrarust_config/src/models/logging.rs:64-104 | every type but a Custom one that borrows a built-in name reads back from its name as itself, and built-in types have built-in names |
| Logging.BuiltInNamesDistinct | crates/infrarust_config/src/models/logging.rs:46-83 | there are 13 built-in types and their names are distinct |
| Logging.DefaultConfig | crates/infrarust_config/src/models/logging.rs:106-139 | the default configuration is not in debug mode, excludes nothing, sets no minimum, and gives each of the 13 built-in types one of the levels debug, info or warn |
| Logging.FromConfig | crates/infrarust/src/telemetry/log_filter.rs:23-57 | the filter keeps the types whose configured level parses, at that level; it keeps the exclusions; its minimum is the configured one when that parses and otherwise debug in a debug build or debug mode and info elsewhere; the default level equals the minimum |
| Logging.DefaultFilterCoversBuiltIns | crates/infrarust/src/telemetry/log_filter.rs:23-57 | the filter made from the default configuration has a level for every built-in type and the build's minimum |
| Logging.FirstMatchingRule | crates/infrarust/src/telemetry/log_filter.rs:249-296 | the rule found is the first, from the start given, that matches the target, and none is found exactly when no rule matches |
| Logging.ExtractLogType | crates/infrarust/src/telemetry/log_filter.rs:249-296 | a type taken from a target is always a built-in one |
| Logging.ExtractFollowsRules | crates/infrarust/src/telemetry/log_filter.rs:249-296 | the type taken from a target is the one of the first matching rule, so proxy_protocol is tested before protocol, and there is none when no rule matches |
| Logging.ExcludedNeverLogged | crates/infrarust/src/telemetry/log_filter.rs:69-72 | an event of an excluded type is never logged |
| Logging.MinimumAlwaysLogged | crates/infrarust/src/telemetry/log_filter.rs:64-81 | an event at or below the minimum level is logged unless its type is excluded |
| Logging.LoggedIsDownwardClosed | crates/infrarust/src/telemetry/log_filter.rs:64-81 | if an event is logged at one level it is also logged at every less verbose level |
| Logging.LoggedThresholds | crates/infrarust/src/telemetry/log_filter.rs:74-80 | an event of a type with a configured level is logged exactly when its level is within the type's level or the minimum; an untyped event, or one of a type with no level, exactly when it is within the default level or the minimum |
| Filters.Register | crates/infrarust/src/security/filter.rs:144-172 | registering a name already present is an error; otherwise the filter is added under its name, enabled |
| Filters.Unregister | crates/infrarust/src/security/filter.rs:174-184 | unregistering an unknown name is NotFound; otherwise exactly that entry goes and the others are unchanged |
| Filters.SetEnabled | crates/infrarust/src/security/filter.rs:186-212 | changing the flag of an unknown name is NotFound; otherwise only that entry's flag changes |
| Filters.Enable | crates/infrarust/src/security/filter.rs:186-198 | enabling an unknown name is NotFound; otherwise the filter then reports itself enabled, and no other filter and no other field changes |
| Filters.Disable | crates/infrarust/src/security/filter.rs:200-212 | disabling an unknown name is NotFound; otherwise the filter then reports itself disabled, and no other filter and no other field changes |
| Filters.IsEnabled | crates/infrarust/src/security/filter.rs:214-221 | the flag of a registered filter is reported, and an unknown name is NotFound |
| Filters.GetFilter | crates/infrarust/src/security/filter.rs:223-230 | a registered filter is returned, and an unknown name is NotFound |
| Filters.Configure | crates/infrarust/src/security/filter.rs:232-242 | an unknown name is NotFound, a filter that takes no configuration is NotConfigurable, and otherwise the filter's own answer is returned |
| Filters.ConfigureWith | crates/infrarust/src/security/filter.rs:244-262 | a result is produced exactly when the name is registered and the caller's function builds one from the filter's name and type; otherwise NotFound |
| Filters.Refresh | crates/infrarust/src/security/filter.rs:264-277 | an unknown name is NotFound, a filter that cannot refresh is an error, and otherwise the filter's own answer is returned |
| Filters.RefreshAll | crates/infrarust/src/security/filter.rs:279-291 | exactly the refreshable filters are refreshed |
| Filters.ListFilters | crates/infrarust/src/security/filter.rs:319-325 | every registered filter is listed once with its type and flag, and nothing else is |
| Filters.Rejecters | crates/infrarust/src/security/filter.rs:293-317 | the filters that refuse a connection are exactly the enabled ones whose check fails |
| Filters.FilterConnection | crates/infrarust/src/security/filter.rs:293-317 | a connection passes exactly when no enabled filter refuses it, and a refusal names a filter that refuses it |
| Filters.SetEnabledRejecters | crates/infrarust/src/security/filter.rs:293-317 | disabling a filter removes its refusal, enabling it adds its refusal if its check fails, and no other filter's refusal changes |
| Filters.RegisterRejecters | crates/infrarust/src/security/filter.rs:293-317 | a newly registered filter refuses from the start exactly when its check fails |
| Filters.UnregisterRejecters | crates/infrarust/src/security/filter.rs:293-317 | an unregistered filter no longer refuses |
| Filters.RegistryWellFiled | crates/infrarust/src/security/filter.rs:144-212 | registering, unregistering and changing flags keep every entry filed under its filter's name |
| Filters.RegisterUnregister | crates/infrarust/src/security/filter.rs:144-184 | registering and then unregistering a new filter gives back the registry, and in between it is enabled |
| Filters.AddFilter | crates/infrarust/src/security/filter.rs:337-340 | adding a filter appends it to the chain |
| Filters.ChainFilter | crates/infrarust/src/security/filter.rs:342-413 | a chain passes exactly when every filter passes, and fails at the first filter that does not |
| Filters.AddFilterChain | crates/infrarust/src/security/filter.rs:337-347 | adding a filter to a passing chain makes it pass exactly when the new filter passes, and a failing chain still fails at the same filter |
| BufferPool.Allocate | crates/infrarust/src/network/packet/io/buffer_pool.rs:35-38 | a fresh buffer is empty with exactly the capacity asked for |
| BufferPool.Clear | crates/infrarust/src/network/packet/io/buffer_pool.rs:57-61 | clearing empties a buffer and keeps its capacity |
| BufferPool.Reserve | crates/infrarust/src/network/packet/io/buffer_pool.rs:40-55 | reserving keeps the contents and leaves room for at least the requested number of bytes beyond them, never shrinking the buffer |
| BufferPool.WithCapacity | crates/infrarust/src/network/packet/io/buffer_pool.rs:27-33 | a new pool is empty with the given default capacity and bound |
| BufferPool.New | crates/infrarust/src/network/packet/io/buffer_pool.rs:5-25 | the default pool is empty, hands out 8192-byte buffers and keeps at most 32 |
| BufferPool.Get | crates/infrarust/src/network/packet/io/buffer_pool.rs:35-38 | a non-empty pool hands out its most recently returned buffer and keeps the rest; an empty pool allocates one of the default capacity and is unchanged |
| BufferPool.FirstFitting | crates/infrarust/src/network/packet/io/buffer_pool.rs:41-46 | the position found is the first buffer with at least the capacity asked for, and none is found exactly when no buffer has it |
| BufferPool.SwapRemove | crates/infrarust/src/network/packet/io/buffer_pool.rs:43-44 | removing by swapping takes out exactly one element, moves the last into its place, and keeps all others |
| BufferPool.GetWithCapacityAsWritten | crates/infrarust/src/network/packet/io/buffer_pool.rs:40-55 | as written, the buffer returned has at least the capacity asked for, or else no pooled buffer was big enough and the one reused has grown only until its new capacity plus its old one reaches the request |
| BufferPool.AsWrittenReturnsSmallBuffer | crates/infrarust/src/network/packet/io/buffer_pool.rs:47-51 | as written, a pool holding one empty 4096-byte buffer asked for 6000 bytes returns a 4096-byte buffer |
| BufferPool.GetWithCapacity | crates/infrarust/src/network/packet/io/buffer_pool.rs:40-55 | the buffer returned is empty with at least the capacity asked for: the first pooled buffer big enough, else the last pooled one grown, else a fresh one of the larger of the request and the default; the pool loses exactly the buffer handed out |
| BufferPool.Put | crates/infrarust/src/network/packet/io/buffer_pool.rs:57-65 | a returned buffer is cleared and kept only while the pool holds fewer buffers than its bound; otherwise the pool is unchanged |
| BufferPool.Len | crates/infrarust/src/network/packet/io/buffer_pool.rs:67-69 | the length is the number of pooled buffers |
| BufferPool.IsEmpty | crates/infrarust/src/network/packet/io/buffer_pool.rs:71-73 | a pool is empty exactly when its length is 0 |
| BufferPool.ClearPool | crates/infrarust/src/network/packet/io/buffer_pool.rs:75-77 | clearing drops every pooled buffer and keeps the pool's settings |
| BufferPool.PoolStaysValid | crates/infrarust/src/network/packet/io/buffer_pool.rs:27-65 | getting and returning buffers keep the pool within its bound with only empty buffers in it |
| BufferPool.PutThenGet | crates/infrarust/src/network/packet/io/buffer_pool.rs:35-65 | a buffer returned to a pool with room is the next one handed out, cleared, and the pool is as before |
| BufferPool.GetWithCapacityTakesOne | crates/infrarust/src/network/packet/io/buffer_pool.rs:40-55 | a request served from a non-empty pool takes exactly one buffer out |

## Left out

- Async I/O, tokio tasks, timeouts and locks. Each operation takes the bytes, the state and the "now" it needs, and returns the state it leaves behind. The TCP peek of the PROXY reader and its timeout are one parameter (`PeekOutcome`). A successful peek always sees the first `min(12, n)` bytes of the n-byte stream; a short peek, which returns fewer bytes while more are still to arrive, is not modelled.
- The thread-local buffer pool, `PooledBuffer` and the pool's mutex: the pool is a value passed in and out.
- Encryption, compression and the packet reader and writer around them: foreign library calls.
- Rate limiting, the `angle` type and the minutes text of `ImminentShutdown` beyond 60 seconds: floating point. The minutes text is a parameter (`minutesText`).
- Handshake.UpgradeToRealIp: the client is an IPv4 address and port. The code takes anything that resolves to a socket address; an IPv6 client, which the code writes as `[addr]:port`, is not modelled, nor is a resolution that fails (the error is returned) or yields no address (`InvalidLength(0)`), both at crates/infrarust_protocol/src/minecraft/java/handshake.rs, lines 107-110. A timestamp before the Unix epoch (`InvalidLength(0)`, lines 112-115) cannot arise, since the timestamp is already a number of seconds.
- Bans.NewBan: the expiry `now + d.as_secs()` wraps modulo 2^64, as in a release build; the panic a debug build raises on that overflow is not modelled.
- Text parsing of IPv6 addresses (`Ipv6Addr::from_str`): a parameter of the PROXY version 1 reader. In `parse_real_ip` an IPv6 client cannot pass the split at ':', so only IPv4 is modelled there.
- SipHash of the status-cache key: keys are given.
- Loading and base64-encoding favicons (`parse_favicon`): a parameter.
- JSON serialisation, file persistence and the audit log of the ban store.
- The texts of errors raised by foreign types (`Utf8Error`, `ParseIntError`, `AddrParseError`): only the error kind and the proxy's own message are kept.
- Unicode case folding: lowercasing is ASCII-only. For the level, unit and state words this is the same as Rust's `to_lowercase`, since none of them contains a non-ASCII letter or the letter k (whose Kelvin sign is the one non-ASCII character that folds to ASCII). Ban names and ban reasons can hold any character, so for them the model differs from the code on non-ASCII letters, as the next two lines say. So can a routed domain, as the line on `Routing.FindServerByDomain` says.
- BanIndex.LookupsExact: its name clause holds only under the model's single ASCII fold. The code files and looks up names with Unicode `to_lowercase` (crates/infrarust_ban_system/src/index.rs, lines 59, 109, 153 and 334), while `matches_username` compares with `eq_ignore_ascii_case` (crates/infrarust_ban_system/src/lib.rs, line 119). For "éric" and "ÉRIC" the name lookup finds the ban and the match test refuses it, so in the code the lookup and the match disagree on such names.
- BanIndex.BannedIffActiveMatch: its name clause rests on the same single fold. In the code a name with non-ASCII letters in another case is banned through the index, which folds with Unicode `to_lowercase`, even though no ban matches it under `eq_ignore_ascii_case`.
- Routing.FindServerByDomain: the requested domain is lowercased ASCII-only, whereas the code uses Unicode `to_lowercase` (crates/infrarust/src/core/config/service.rs, line 38). The two differ on non-ASCII letters. In the code "MÜNCHEN.example.com" matches the pattern "münchen.example.com"; in the model it does not. A pattern holding "É" matches an "É" in the domain in the model, and never in the code, whose lowercased domain holds "é" instead.
- Regex filters in the log filter, the log formatter and the tracing layers. The log type stored on an event is a parameter.
- What each connection filter decides, and what applying a configuration or refreshing does inside it: parameters of the registry operations.
- The iteration order of Rust's `HashMap`. Wherever the code's result depends on it (the filter registry, cache eviction ties, ban reason lookup), the model leaves the choice open and proves what holds for every order.
- The server-manager side effects of the configuration service: `update_configurations` calls `register_server` for a new local-provider server (crates/infrarust/src/core/config/service.rs, lines 177-194), and `remove_configuration` calls `unregister_server` (line 277). Both reach the server manager, which is outside the model.
- The conversion of the handshake timestamp to `SystemTime`: the timestamp stays a number of seconds.
- `usize` overflow of `page * page_size` in ban paging: sizes are unbounded.
- The Docker and file configuration providers other than the update de-duplication, the CLI commands other than the duration helpers, the server manager's processes and HTTP clients, and the thin packet structs that only combine the codecs above.
- Motd.GenerateForState: the result is the status response itself, so the two ways the code can fail after building it are not modelled. One is a `serde_json::to_string` error, which becomes `Other("Failed to serialize status JSON: …")` (crates/infrarust/src/server/motd/generator.rs, lines 47-58). The other is a packet-encoding error when the JSON text is too long for its VarInt length prefix (lines 60-63). JSON serialisation is outside the model; the packet encoding of a string is modelled on its own by `Packet.Encode` and `Strings.WriteString`.
- Durations.FormatDuration: its own contract states only the under-a-minute case. The other thresholds are stated by `FormatWholeUnits`, `FormatMinutes` to `FormatYears` and `FormatParsedDuration`, which is stronger than repeating the branches.
- BufferPool.Reserve: the allocator may give more room than asked for. The model gives exactly what is asked, so the contract states only "at least".
- BufferPool.GetWithCapacity: the same over-allocation is left open; the contract states a lower bound on the capacity.
- BanIndex.AddConsistent: requires that the id is new. Adding an id already stored overwrites the stored ban but leaves the old ban's keys filed, which the model does not describe.
- Arrays.ReadPrefixedArray: a large positive count is passed to `Vec::with_capacity` too, and the allocation can fail for lack of memory. Memory is not modelled, so such a count reads elements until the input runs out.
- Handshake.IsLoginRequest and Handshake.IsStatusRequest: plain predicates on the next state (2 and 1), with no separate contract.

## Findings

| source | as written | input that shows it | evidently intended | confidence | as-written member | corrected member |
|---|---|---|---|---|---|---|
| crates/infrarust_protocol/src/types/var_numbers.rs:21-40 | `len` measures the magnitude of the value, so every negative value counts as short | -1, whose encoding has 5 bytes while `len` says 1 | the number of bytes `write_to` emits, as `VarLong::len` computes with `as u64` | high; not executed | VarInt.LenAsWritten, VarInt.LenAsWrittenUndercountsNegative | VarInt.Len |
| crates/infrarust/src/network/proxy_protocol/reader.rs:114-128 | a version 1 header with fewer than six fields is refused before the protocol family is looked at | "PROXY UNKNOWN\r\n", the short form section 2.1 of the HAProxy PROXY protocol specification allows | UNKNOWN with any number of fields gives no address | high; not executed | ProxyProtocol.V1SourceAsWritten, ProxyProtocol.V1ShortUnknown | ProxyProtocol.V1Source, ProxyProtocol.ReadV1HeaderIntended, ProxyProtocol.V1ShortUnknownLine |
| crates/infrarust/src/network/packet/io/buffer_pool.rs:47-51 | a reused buffer reserves `min_capacity - capacity` more bytes, but `reserve` counts from the length, which is 0 | a pool holding one empty 4096-byte buffer, asked for 6000 bytes, returns a 4096-byte buffer | the buffer returned has at least the capacity asked for | medium; not executed | BufferPool.GetWithCapacityAsWritten, BufferPool.AsWrittenReturnsSmallBuffer | BufferPool.GetWithCapacity |
