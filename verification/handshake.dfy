/** The serverbound handshake of the modern Java protocol
    (crates/infrarust_protocol/src/minecraft/java/handshake.rs): the first
    packet of every connection, naming the protocol version, the address
    the client dialled, the port and the state it asks for. */
module Handshake {
  import opened Bytes
  import opened Wrappers
  import opened Io
  import opened Text
  import VarInt
  import Strings
  import Primitives
  import Packet
  import Net
  import Utf8

  const SERVERBOUND_HANDSHAKE_ID: i32 := 0x00
  const STATE_STATUS: i8 := 1
  const STATE_LOGIN: i8 := 2
  /** Forge appends its marker after this separator. */
  const SEPARATOR_FORGE: string := "\0"
  /** The RealIP convention appends `///ip:port///timestamp`. */
  const SEPARATOR_REAL_IP: string := "///"
  const U64_MAX: nat := 0xFFFF_FFFF_FFFF_FFFF

  datatype ServerBoundHandshake = ServerBoundHandshake(
    protocolVersion: i32, serverAddress: string, serverPort: u16, nextState: i8)

  predicate IsStatusRequest(h: ServerBoundHandshake) { h.nextState == STATE_STATUS }

  predicate IsLoginRequest(h: ServerBoundHandshake) { h.nextState == STATE_LOGIN }

  predicate IsForgeAddress(h: ServerBoundHandshake) { Contains(h.serverAddress, SEPARATOR_FORGE) }

  predicate IsRealIpAddress(h: ServerBoundHandshake) { Contains(h.serverAddress, SEPARATOR_REAL_IP) }

  // The domain a client asked for

  /** `parse_server_address`: the address before any Forge marker and
      before any RealIP suffix, without leading or trailing dots. */
  function ParseServerAddress(address: string): (r: string)
    ensures '\0' !in r && !Contains(r, SEPARATOR_REAL_IP)
    ensures |r| == 0 || (r[0] != '.' && r[|r| - 1] != '.')
    ensures |r| <= |address|
  {
    var host := Before(address, SEPARATOR_FORGE);
    var domain := Before(host, SEPARATOR_REAL_IP);
    var r := TrimMatches(domain, '.');
    var i, j :| 0 <= i <= j <= |domain| && r == domain[i..j];
    InfixContains(domain, SEPARATOR_REAL_IP, i, j);
    CharContains(host, '\0');
    assert domain <= host;
    r
  }

  /** An address that is already a bare domain comes back unchanged. */
  lemma ParsePlainAddress(address: string)
    requires '\0' !in address && !Contains(address, SEPARATOR_REAL_IP)
    requires |address| == 0 || (address[0] != '.' && address[|address| - 1] != '.')
    ensures ParseServerAddress(address) == address
  {
    CharContains(address, '\0');
  }

  /** Whatever follows the first NUL is ignored. */
  lemma ParseIgnoresForgeSuffix(host: string, suffix: string)
    requires '\0' !in host
    ensures ParseServerAddress(host + SEPARATOR_FORGE + suffix) == ParseServerAddress(host)
  {
    CharContains(host, '\0');
    SplitOnceAfterFreePrefix(host, SEPARATOR_FORGE, suffix);
  }

  /** Leading and trailing dots, as in a fully qualified `mc.example.com.`,
      are dropped. */
  lemma ParseTrimsDots(address: string)
    requires '\0' !in address && !Contains(address, SEPARATOR_REAL_IP)
    ensures ParseServerAddress(address) == TrimMatches(address, '.')
  {
    CharContains(address, '\0');
  }

  // RealIP forwarding

  datatype ProtocolError = InvalidLength(length: nat)

  /** What `parse_real_ip` recovers: the original address, the timestamp
      in seconds since the Unix epoch, and the client's socket address. */
  datatype RealIp = RealIp(address: string, timestamp: u64, ip: Net.IpAddr, port: u16)

  /** `parse_real_ip`.  `IpAddr::from_str` is applied to text before the
      first `:`, and every IPv6 literal contains a `:`, so only the IPv4
      grammar can succeed there. */
  function ParseRealIp(address: string): (r: Result<RealIp, ProtocolError>)
    ensures var parts := Split(address, SEPARATOR_REAL_IP);
            |parts| < 3 ==> r == Err(InvalidLength(|parts|))
    ensures var parts := Split(address, SEPARATOR_REAL_IP);
            |parts| >= 3 && ParseUnsigned(parts[2], U64_MAX).Some? && ':' !in parts[1]
            ==> r == Err(InvalidLength(1))
    ensures r.Ok? ==> var parts := Split(address, SEPARATOR_REAL_IP);
                      |parts| >= 3 && r.value.address == parts[0]
                      && ParseUnsigned(parts[2], U64_MAX) == Some(r.value.timestamp as nat)
                      && r.value.ip.V4?
  {
    var parts := Split(address, SEPARATOR_REAL_IP);
    if |parts| < 3 then Err(InvalidLength(|parts|))
    else
      match ParseUnsigned(parts[2], U64_MAX)
      case None => Err(InvalidLength(0))
      case Some(timestamp) =>
        var addrParts := Split(parts[1], ":");
        NoColonOnePiece(parts[1]);
        if |addrParts| < 2 then Err(InvalidLength(|addrParts|))
        else
          match ParseUnsigned(addrParts[1], 0xFFFF)
          case None => Err(InvalidLength(0))
          case Some(port) =>
            match Net.ParseIpv4(addrParts[0])
            case None => Err(InvalidLength(0))
            case Some(ip) => Ok(RealIp(parts[0], timestamp, Net.V4(ip), port))
  }

  lemma NoColonOnePiece(s: string)
    ensures ':' !in s ==> Split(s, ":") == [s]
  {
    CharContains(s, ':');
  }

  /** `upgrade_to_real_ip` for an IPv4 client: the part before the first
      NUL, then `///ip:port///seconds`, then the Forge marker if there was
      one.  Only the first piece after the NUL is carried over. */
  function UpgradeToRealIp(h: ServerBoundHandshake, client: Net.Ipv4Octets, clientPort: u16,
                           timestamp: u64): (r: ServerBoundHandshake)
    ensures r.protocolVersion == h.protocolVersion && r.serverPort == h.serverPort
            && r.nextState == h.nextState
    ensures Contains(r.serverAddress, SEPARATOR_REAL_IP)
  {
    var parts := Split(h.serverAddress, SEPARATOR_FORGE);
    var tail := Net.FormatSocketV4(client, clientPort) + SEPARATOR_REAL_IP + NatToString(timestamp);
    var upgraded := parts[0] + SEPARATOR_REAL_IP + tail;
    var address := if |parts| > 1 then upgraded + SEPARATOR_FORGE + parts[1] else upgraded;
    assert OccursAt(address, SEPARATOR_REAL_IP, |parts[0]|) by {
      assert address[|parts[0]|..|parts[0]| + 3] == SEPARATOR_REAL_IP;
    }
    h.(serverAddress := address)
  }

  /** Without a Forge marker the upgraded address is the three pieces
      joined by the RealIP separator. */
  lemma UpgradedAddressIsJoin(h: ServerBoundHandshake, client: Net.Ipv4Octets, clientPort: u16,
                              timestamp: u64)
    requires '\0' !in h.serverAddress
    ensures UpgradeToRealIp(h, client, clientPort, timestamp).serverAddress
         == Join([h.serverAddress, Net.FormatSocketV4(client, clientPort), NatToString(timestamp)],
                 SEPARATOR_REAL_IP)
  {
    var a := h.serverAddress;
    CharContains(a, '\0');
    assert Split(a, SEPARATOR_FORGE) == [a];
    var sock := Net.FormatSocketV4(client, clientPort);
    var ts := NatToString(timestamp);
    assert Join([sock, ts], SEPARATOR_REAL_IP) == sock + SEPARATOR_REAL_IP + ts;
    assert [a, sock, ts][1..] == [sock, ts];
  }

  /** An upgraded handshake without a Forge marker parses back to the
      original address, the client's socket address and the timestamp. */
  lemma RealIpRoundTrip(h: ServerBoundHandshake, client: Net.Ipv4Octets, clientPort: u16,
                        timestamp: u64)
    requires '/' !in h.serverAddress && '\0' !in h.serverAddress
    ensures ParseRealIp(UpgradeToRealIp(h, client, clientPort, timestamp).serverAddress)
         == Ok(RealIp(h.serverAddress, timestamp, Net.V4(client), clientPort))
  {
    hide Split, Join, NatToString, ParseUnsigned, Net.ParseIpv4, Net.FormatIpv4, Net.FormatSocketV4, UpgradeToRealIp;
    var sock := Net.FormatSocketV4(client, clientPort);
    var ts := NatToString(timestamp);
    UpgradedAddressIsJoin(h, client, clientPort, timestamp);
    assert '/' !in ts by {
      forall k | 0 <= k < |ts| ensures ts[k] != '/' {
        assert IsAsciiDigit(ts[k]);
      }
    }
    SplitJoin([h.serverAddress, sock, ts], SEPARATOR_REAL_IP);
    ParseNatToString(timestamp, U64_MAX);
    ParseNatToString(clientPort, 0xFFFF);
    Net.ParseFormatIpv4(client);
  }

  /** Upgrading does not change the domain the proxy routes on, for any
      address whose domain part has no `/`. */
  lemma UpgradeKeepsServerAddress(h: ServerBoundHandshake, client: Net.Ipv4Octets,
                                  clientPort: u16, timestamp: u64)
    requires '/' !in Before(h.serverAddress, SEPARATOR_FORGE)
    ensures ParseServerAddress(UpgradeToRealIp(h, client, clientPort, timestamp).serverAddress)
         == ParseServerAddress(h.serverAddress)
  {
    var parts := Split(h.serverAddress, SEPARATOR_FORGE);
    var host := parts[0];
    assert host == Before(h.serverAddress, SEPARATOR_FORGE);
    CharContains(host, '\0');
    var sock := Net.FormatSocketV4(client, clientPort);
    var ts := NatToString(timestamp);
    var tail := sock + SEPARATOR_REAL_IP + ts;
    var upgraded := host + SEPARATOR_REAL_IP + tail;
    assert '\0' !in ts by {
      forall k | 0 <= k < |ts| ensures ts[k] != '\0' {
        assert IsAsciiDigit(ts[k]);
      }
    }
    assert '\0' !in upgraded;
    CharContains(upgraded, '\0');
    SplitOnceAfterFreePrefix(host, SEPARATOR_REAL_IP, tail);
    var address := UpgradeToRealIp(h, client, clientPort, timestamp).serverAddress;
    if |parts| > 1 {
      SplitOnceAfterFreePrefix(upgraded, SEPARATOR_FORGE, parts[1]);
      assert Before(address, SEPARATOR_FORGE) == upgraded;
    } else {
      assert Before(address, SEPARATOR_FORGE) == upgraded;
    }
    assert Before(upgraded, SEPARATOR_REAL_IP) == host;
    NoFirstCharNoOccurrence(host, SEPARATOR_REAL_IP);
  }

  // Wire format

  /** `ProtocolWrite::write_to`: VarInt version, string address, unsigned
      short port, signed byte state. */
  function WriteHandshake(h: ServerBoundHandshake): (r: Result<seq<byte>, IoError>)
    ensures r.Ok? <==> VarInt.Write(h.protocolVersion).Ok? && Strings.WriteString(h.serverAddress).Ok?
    ensures r.Ok? ==> |r.value| == |VarInt.ToBytes(h.protocolVersion)|
                                   + |Strings.WriteString(h.serverAddress).value| + 3
  {
    var version :- VarInt.Write(h.protocolVersion);
    var address :- Strings.WriteString(h.serverAddress);
    Ok(version + address + Primitives.WriteUnsignedShort(h.serverPort)
       + Primitives.WriteByte(h.nextState))
  }

  /** `ProtocolRead::read_from`: the four fields in order and the total
      count of bytes they took. */
  function ReadHandshake(input: seq<byte>): (r: Result<Decoded<ServerBoundHandshake>, IoError>)
    ensures r.Ok? ==> r.value.size <= |input|
  {
    var version :- VarInt.Read(input);
    var tail :- ReadAfterVersion(input[version.size..]);
    Ok(Decoded(ServerBoundHandshake(version.value, tail.value.0, tail.value.1, tail.value.2),
               version.size + tail.size))
  }

  /** The address, port and state that follow the version. */
  function ReadAfterVersion(input: seq<byte>): (r: Result<Decoded<(string, u16, i8)>, IoError>)
    ensures r.Ok? ==> r.value.size <= |input|
  {
    var address :- Strings.ReadString(input);
    var fixed :- ReadPortAndState(input[address.size..]);
    Ok(Decoded((address.value, fixed.value.0, fixed.value.1), address.size + fixed.size))
  }

  /** The unsigned short port and the signed byte state. */
  function ReadPortAndState(input: seq<byte>): (r: Result<Decoded<(u16, i8)>, IoError>)
    ensures r.Ok? <==> |input| >= 3
    ensures r.Ok? ==> r.value.size == 3
  {
    var port :- Primitives.ReadUnsignedShort(input);
    var state :- Primitives.ReadByte(input[port.size..]);
    Ok(Decoded((port.value, state.value), port.size + state.size))
  }

  /** `read_from_bytes`: the handshake at the front of a payload. */
  function ReadFromBytes(data: seq<byte>): (r: Result<ServerBoundHandshake, IoError>)
    ensures r.Ok? <==> ReadHandshake(data).Ok?
    ensures r.Ok? ==> r.value == ReadHandshake(data).value.value
  {
    var d :- ReadHandshake(data);
    Ok(d.value)
  }

  lemma PortAndStateRoundTrip(port: u16, state: i8, rest: seq<byte>)
    ensures ReadPortAndState(Primitives.WriteUnsignedShort(port) + (Primitives.WriteByte(state) + rest))
         == Ok(Decoded((port, state), 3))
  {
    var p := Primitives.WriteUnsignedShort(port);
    Primitives.UnsignedShortRoundTrip(port, Primitives.WriteByte(state) + rest);
    AfterPrefix(p, Primitives.WriteByte(state) + rest);
    Primitives.ByteRoundTrip(state, rest);
  }

  /** The bytes after the version, as `write_to` produces them. */
  function AfterVersionBytes(h: ServerBoundHandshake, rest: seq<byte>): seq<byte>
    requires Strings.WriteString(h.serverAddress).Ok?
  {
    Strings.WriteString(h.serverAddress).value
    + (Primitives.WriteUnsignedShort(h.serverPort) + (Primitives.WriteByte(h.nextState) + rest))
  }

  lemma AfterVersionRoundTrip(h: ServerBoundHandshake, rest: seq<byte>)
    requires |Utf8.Encode(h.serverAddress)| < 0x8000_0000
    requires Strings.WriteString(h.serverAddress).Ok?
    ensures ReadAfterVersion(AfterVersionBytes(h, rest))
         == Ok(Decoded((h.serverAddress, h.serverPort, h.nextState),
                       |Strings.WriteString(h.serverAddress).value| + 3))
  {
    hide *;
    var a := Strings.WriteString(h.serverAddress).value;
    var fixed := Primitives.WriteUnsignedShort(h.serverPort) + (Primitives.WriteByte(h.nextState) + rest);
    AfterVersionBytesSplit(h, rest);
    Strings.StringRoundTrip(h.serverAddress, fixed);
    PortAndStateRoundTrip(h.serverPort, h.nextState, rest);
    ReadAfterVersionOf(a, fixed, h.serverAddress, (h.serverPort, h.nextState));
  }

  lemma AfterVersionBytesSplit(h: ServerBoundHandshake, rest: seq<byte>)
    requires |Utf8.Encode(h.serverAddress)| < 0x8000_0000
    requires Strings.WriteString(h.serverAddress).Ok?
    ensures |Utf8.Encode(h.serverAddress)| < VarInt.THREE_BYTE_LIMIT
    ensures AfterVersionBytes(h, rest)
         == Strings.WriteString(h.serverAddress).value
            + (Primitives.WriteUnsignedShort(h.serverPort) + (Primitives.WriteByte(h.nextState) + rest))
  {
  }

  /** The reader's two steps after the version: an address taking the
      bytes `a`, then the three fixed bytes. */
  lemma ReadAfterVersionOf(a: seq<byte>, fixed: seq<byte>, address: string, tail: (u16, i8))
    requires Strings.ReadString(a + fixed) == Ok(Decoded(address, |a|))
    requires ReadPortAndState(fixed) == Ok(Decoded(tail, 3))
    ensures ReadAfterVersion(a + fixed) == Ok(Decoded((address, tail.0, tail.1), |a| + 3))
  {
    AfterPrefix(a, fixed);
  }

  lemma WriteHandshakeBytes(h: ServerBoundHandshake, rest: seq<byte>)
    requires WriteHandshake(h).Ok?
    ensures Strings.WriteString(h.serverAddress).Ok?
    ensures WriteHandshake(h).value + rest
         == VarInt.ToBytes(h.protocolVersion) + AfterVersionBytes(h, rest)
  {
  }

  /** The reader's two steps: a version taking the first `n` bytes, then
      the remaining fields read from what follows. */
  lemma ReadHandshakeOf(input: seq<byte>, n: nat, version: i32,
                        after: Decoded<(string, u16, i8)>)
    requires n <= |input| && VarInt.Read(input) == Ok(Decoded(version, n))
    requires ReadAfterVersion(input[n..]) == Ok(after)
    ensures ReadHandshake(input)
         == Ok(Decoded(ServerBoundHandshake(version, after.value.0, after.value.1, after.value.2),
                       n + after.size))
  {
  }

  /** Every writable handshake reads back unchanged, and the count read
      equals the count written.  (The address length is cast `as i32`
      when it is written; the lemma covers the lengths the cast keeps.) */
  lemma HandshakeRoundTrip(h: ServerBoundHandshake, rest: seq<byte>)
    requires |Utf8.Encode(h.serverAddress)| < 0x8000_0000
    requires WriteHandshake(h).Ok?
    ensures ReadHandshake(WriteHandshake(h).value + rest)
         == Ok(Decoded(h, |WriteHandshake(h).value|))
  {
    hide *;
    WriteHandshakeBytes(h, rest);
    var v := VarInt.ToBytes(h.protocolVersion);
    var tail := AfterVersionBytes(h, rest);
    VarInt.ReadToBytes(h.protocolVersion, tail);
    AfterVersionRoundTrip(h, rest);
    AfterPrefix(v, tail);
    ReadHandshakeOf(v + tail, |v|, h.protocolVersion,
                    Decoded((h.serverAddress, h.serverPort, h.nextState),
                            |Strings.WriteString(h.serverAddress).value| + 3));
  }

  // Packets

  function WriteVersion(v: i32): Result<seq<byte>, IoError> { VarInt.Write(v) }

  function WriteAddress(s: string): Result<seq<byte>, IoError> { Strings.WriteString(s) }

  function WritePort(v: u16): Result<seq<byte>, IoError> { Ok(Primitives.WriteUnsignedShort(v)) }

  /** `to_packet`: the version, address and port, then a VarInt 2 in the
      place of the state, whatever state the handshake holds. */
  function ToPacket(h: ServerBoundHandshake, p: Packet.Packet): (r: Result<Packet.Packet, Packet.PacketError>)
    ensures r.Ok? <==> WriteHandshake(h).Ok?
    ensures r.Ok? ==> r.value == p.(data := r.value.data)
  {
    var p1 :- Packet.Encode(p, h.protocolVersion, WriteVersion);
    var p2 :- Packet.Encode(p1, h.serverAddress, WriteAddress);
    match Packet.Encode(p2, h.serverPort, WritePort)
    case Err(e) => Err(e)
    case Ok(p3) =>
      var state: i32 := 2;
      Packet.Encode(p3, state, WriteVersion)
  }

  /** The payload `to_packet` appends is the handshake as `write_to` would
      write it with the login state. */
  lemma ToPacketData(h: ServerBoundHandshake, p: Packet.Packet)
    requires WriteHandshake(h).Ok?
    ensures ToPacket(h, p) == Ok(p.(data := p.data + WriteHandshake(h.(nextState := STATE_LOGIN)).value))
  {
    hide *;
    ToPacketFields(h, p);
    LoginHandshakeBytes(h);
    var v := VarInt.ToBytes(h.protocolVersion);
    var a := Strings.WriteString(h.serverAddress).value;
    var port := Primitives.WriteUnsignedShort(h.serverPort);
    assert p.data + v + a + port + VarInt.ToBytes(2) == p.data + (v + a + port + VarInt.ToBytes(2));
  }

  /** The four values `to_packet` encodes, in order. */
  lemma ToPacketFields(h: ServerBoundHandshake, p: Packet.Packet)
    requires WriteHandshake(h).Ok?
    ensures Strings.WriteString(h.serverAddress).Ok?
    ensures ToPacket(h, p)
         == Ok(p.(data := p.data + VarInt.ToBytes(h.protocolVersion) + Strings.WriteString(h.serverAddress).value
                          + Primitives.WriteUnsignedShort(h.serverPort) + VarInt.ToBytes(2)))
  {
  }

  /** The state written as VarInt 2 is the same byte as the signed byte 2. */
  lemma LoginHandshakeBytes(h: ServerBoundHandshake)
    requires WriteHandshake(h).Ok?
    ensures WriteHandshake(h.(nextState := STATE_LOGIN)).value
         == VarInt.ToBytes(h.protocolVersion) + Strings.WriteString(h.serverAddress).value
            + Primitives.WriteUnsignedShort(h.serverPort) + VarInt.ToBytes(2)
  {
    assert VarInt.ToBytes(2) == Primitives.WriteByte(STATE_LOGIN);
  }

  /** `from_packet`: only packet id 0x00 is a handshake. */
  function FromPacket(p: Packet.Packet): (r: Result<ServerBoundHandshake, IoError>)
    ensures p.id != SERVERBOUND_HANDSHAKE_ID
            ==> r == Err(InvalidData("Invalid packet ID for handshake"))
    ensures p.id == SERVERBOUND_HANDSHAKE_ID ==> r == ReadFromBytes(p.data)
  {
    if p.id != SERVERBOUND_HANDSHAKE_ID then Err(InvalidData("Invalid packet ID for handshake"))
    else ReadFromBytes(p.data)
  }

  /** A handshake put into a fresh packet 0x00 comes back with its version,
      address and port, as a login request. */
  lemma PacketRoundTrip(h: ServerBoundHandshake)
    requires |Utf8.Encode(h.serverAddress)| < 0x8000_0000
    requires WriteHandshake(h).Ok?
    ensures var p := ToPacket(h, Packet.NewPacket(SERVERBOUND_HANDSHAKE_ID));
            p.Ok? && FromPacket(p.value) == Ok(h.(nextState := STATE_LOGIN))
            && IsLoginRequest(FromPacket(p.value).value)
  {
    ToPacketData(h, Packet.NewPacket(SERVERBOUND_HANDSHAKE_ID));
    var h' := h.(nextState := STATE_LOGIN);
    var bytes := WriteHandshake(h').value;
    assert [] + bytes == bytes && bytes + [] == bytes;
    HandshakeRoundTrip(h', []);
  }
}
