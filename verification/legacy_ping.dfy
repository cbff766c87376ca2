/** The legacy server-list ping
    (crates/infrarust_protocol/src/minecraft/java/legacy/ping.rs).  Beta 1.8
    to 1.3 clients send 0xFE alone, 1.4 and 1.5 add 0x01, and 1.6 adds 0xFA
    and an `MC|PingHost` plugin message carrying protocol, host and port. */
module LegacyPing {
  import opened Bytes
  import opened Wrappers
  import opened Io
  import Primitives
  import Utf16
  import LegacyHandshake

  const LEGACY_PING_BYTE: byte := 0xFE

  datatype LegacyPingVariant =
    | Beta
    | V1_4
    | V1_6(protocolVersion: byte, hostname: string, port: i32)

  /** `uses_v1_4_response_format`: every variant but Beta. */
  function UsesV1_4ResponseFormat(v: LegacyPingVariant): (r: bool)
    ensures r <==> !v.Beta?
  {
    match v
    case Beta => false
    case V1_4 => true
    case V1_6(_, _, _) => true
  }

  /** `hostname`: only a 1.6 ping names the host. */
  function Hostname(v: LegacyPingVariant): (r: Option<string>)
    ensures r.Some? <==> v.V1_6?
    ensures v.V1_6? ==> r == Some(v.hostname)
  {
    match v
    case V1_6(_, hostname, _) => Some(hostname)
    case _ => None
  }

  /** `parse_legacy_ping`.  A missing or unexpected second or third byte
      is not an error: it only decides the older variant.  After 0xFA every
      short read or bad string is. */
  function ParseLegacyPing(data: seq<byte>): (r: Result<LegacyPingVariant, IoError>)
    ensures |data| == 0 ==> r == Err(InvalidData("Empty legacy ping data"))
    ensures |data| > 0 && data[0] != LEGACY_PING_BYTE ==> r.Err? && r.error.InvalidData?
    ensures |data| > 0 && data[0] == LEGACY_PING_BYTE && (|data| < 2 || data[1] != 0x01)
            ==> r == Ok(Beta)
    ensures |data| >= 2 && data[..2] == [LEGACY_PING_BYTE, 0x01] && (|data| < 3 || data[2] != 0xFA)
            ==> r == Ok(V1_4)
    ensures r.Ok? && r.value.V1_6? ==> |data| >= 3 && data[..3] == [LEGACY_PING_BYTE, 0x01, 0xFA]
  {
    if |data| == 0 then Err(InvalidData("Empty legacy ping data"))
    else if data[0] != LEGACY_PING_BYTE then
      Err(InvalidData("Expected 0xFE, got 0x" + LegacyHandshake.HexByte(data[0])))
    else if |data| < 2 || data[1] != 0x01 then Ok(Beta)
    else if |data| < 3 || data[2] != 0xFA then Ok(V1_4)
    else
      var r := ParsePingHost(data[3..]);
      assert |data| >= 3 && data[..3] == [data[0], data[1], data[2]];
      r
  }

  /** The `MC|PingHost` message after 0xFA: the channel name, a data length
      that is read and ignored, the protocol byte, the host and the port. */
  function ParsePingHost(body: seq<byte>): (r: Result<LegacyPingVariant, IoError>)
    ensures r.Ok? ==> r.value.V1_6?
  {
    var channel :- LegacyHandshake.ReadLegacyString(body);
    var afterChannel := body[channel.size..];
    var _ :- Primitives.ReadUnsignedShort(afterChannel);
    var afterLength := afterChannel[2..];
    var protocol :- ReadExact(afterLength, 1);
    var afterProtocol := afterLength[1..];
    var hostname :- LegacyHandshake.ReadLegacyString(afterProtocol);
    var port :- Primitives.ReadInt(afterProtocol[hostname.size..]);
    Ok(V1_6(protocol[0], hostname.value, port.value))
  }

  /** A 1.6 ping as a client sends it. */
  function BuildPingHost(channel: string, dataLength: u16, protocolVersion: byte,
                         hostname: string, port: i32): seq<byte>
    requires |Utf16.Encode(channel)| < 0x1_0000 && |Utf16.Encode(hostname)| < 0x1_0000
  {
    [LEGACY_PING_BYTE, 0x01, 0xFA]
    + (LegacyHandshake.WriteLegacyString(channel)
       + (Primitives.WriteUnsignedShort(dataLength)
          + ([protocolVersion] + (LegacyHandshake.WriteLegacyString(hostname) + Primitives.WriteInt(port)))))
  }

  /** A 1.6 ping gives back its protocol, host and port, whatever the
      channel name and the declared data length. */
  lemma PingHostRoundTrip(channel: string, dataLength: u16, protocolVersion: byte,
                          hostname: string, port: i32, rest: seq<byte>)
    requires |Utf16.Encode(channel)| < 0x1_0000 && |Utf16.Encode(hostname)| < 0x1_0000
    ensures ParseLegacyPing(BuildPingHost(channel, dataLength, protocolVersion, hostname, port) + rest)
         == Ok(V1_6(protocolVersion, hostname, port))
  {
    hide *;
    var c := LegacyHandshake.WriteLegacyString(channel);
    var l := Primitives.WriteUnsignedShort(dataLength);
    var h := LegacyHandshake.WriteLegacyString(hostname);
    var p := Primitives.WriteInt(port);
    var afterProtocol := h + (p + rest);
    var afterLength := [protocolVersion] + afterProtocol;
    var afterChannel := l + afterLength;
    var body := c + afterChannel;
    var header: seq<byte> := [LEGACY_PING_BYTE, 0x01, 0xFA];
    BuildPingHostIs(channel, dataLength, protocolVersion, hostname, port);
    assert BuildPingHost(channel, dataLength, protocolVersion, hostname, port) + rest == header + body;
    LegacyHandshake.LegacyStringRoundTrip(channel, afterChannel);
    AfterPrefix(c, afterChannel);
    Primitives.UnsignedShortRoundTrip(dataLength, afterLength);
    AfterPrefix(l, afterLength);
    AfterPrefix([protocolVersion], afterProtocol);
    LegacyHandshake.LegacyStringRoundTrip(hostname, p + rest);
    AfterPrefix(h, p + rest);
    Primitives.IntRoundTrip(port, rest);
    ParsePingHostOf(body, |c|, protocolVersion, hostname, |h|, port);
    ParsePingHeaderOf(header, body);
  }

  lemma BuildPingHostIs(channel: string, dataLength: u16, protocolVersion: byte,
                        hostname: string, port: i32)
    requires |Utf16.Encode(channel)| < 0x1_0000 && |Utf16.Encode(hostname)| < 0x1_0000
    ensures BuildPingHost(channel, dataLength, protocolVersion, hostname, port)
         == [LEGACY_PING_BYTE, 0x01, 0xFA]
            + (LegacyHandshake.WriteLegacyString(channel)
               + (Primitives.WriteUnsignedShort(dataLength)
                  + ([protocolVersion] + (LegacyHandshake.WriteLegacyString(hostname) + Primitives.WriteInt(port)))))
  {
  }

  /** The message's steps: a channel taking `csize` bytes, two length bytes,
      the protocol byte, a host taking `hsize` bytes and the port. */
  lemma ParsePingHostOf(body: seq<byte>, csize: nat, protocolVersion: byte,
                        hostname: string, hsize: nat, port: i32)
    requires LegacyHandshake.ReadLegacyString(body).Ok?
    requires LegacyHandshake.ReadLegacyString(body).value.size == csize
    requires Primitives.ReadUnsignedShort(body[csize..]).Ok?
    requires |body[csize..][2..]| >= 1 && body[csize..][2..][0] == protocolVersion
    requires LegacyHandshake.ReadLegacyString(body[csize..][2..][1..]) == Ok(Decoded(hostname, hsize))
    requires Primitives.ReadInt(body[csize..][2..][1..][hsize..]) == Ok(Decoded(port, 4))
    ensures ParsePingHost(body) == Ok(V1_6(protocolVersion, hostname, port))
  {
  }

  lemma ParsePingHeaderOf(header: seq<byte>, body: seq<byte>)
    requires header == [LEGACY_PING_BYTE, 0x01, 0xFA]
    ensures ParseLegacyPing(header + body) == ParsePingHost(body)
  {
    AfterPrefix(header, body);
  }
}
