/** The legacy (pre-Netty) kick packet a server answers a legacy ping with
    (crates/infrarust_protocol/src/minecraft/java/legacy/kick.rs): byte
    0xFF, a big-endian u16 count of UTF-16 code units, then the units
    themselves, big-endian. */
module LegacyKick {
  import opened Bytes
  import opened Wrappers
  import opened Io
  import opened Text
  import Utf16

  const LEGACY_KICK_PACKET_ID: byte := 0xFF
  /** The section sign (U+00A7), the field separator of the legacy status strings. */
  const SECTION_SIGN: char := '\U{A7}'

  /** `encode_utf16be` */
  function EncodeUtf16Be(s: string): (r: seq<byte>)
    ensures |r| == 2 * |Utf16.Encode(s)|
  {
    Utf16.ToBeBytes(Utf16.Encode(s))
  }

  /** `decode_utf16be`: odd lengths and unpaired surrogates are InvalidData. */
  function DecodeUtf16Be(data: seq<byte>): (r: Result<string, IoError>)
    ensures |data| % 2 != 0 ==> r == Err(InvalidData("UTF-16BE data must have even length"))
    ensures r.Ok? ==> |data| % 2 == 0 && Utf16.Decode(Utf16.FromBeBytes(data)) == Some(r.value)
    ensures r.Err? && |data| % 2 == 0 ==> r.error.InvalidData?
  {
    if |data| % 2 != 0 then Err(InvalidData("UTF-16BE data must have even length"))
    else
      match Utf16.Decode(Utf16.FromBeBytes(data))
      case None => Err(InvalidData("Invalid UTF-16BE data: invalid utf-16: lone surrogate found"))
      case Some(s) => Ok(s)
  }

  /** Every string survives `decode_utf16be(encode_utf16be(s))`. */
  lemma DecodeEncodeUtf16Be(s: string)
    ensures DecodeUtf16Be(EncodeUtf16Be(s)) == Ok(s)
  {
    Utf16.FromToBeBytes(Utf16.Encode(s));
    Utf16.DecodeEncode(s);
  }

  /** Every byte string `decode_utf16be` accepts is the encoding of its
      result: there is one spelling per string. */
  lemma EncodeDecodeUtf16Be(data: seq<byte>)
    requires DecodeUtf16Be(data).Ok?
    ensures EncodeUtf16Be(DecodeUtf16Be(data).value) == data
  {
    var units := Utf16.FromBeBytes(data);
    Utf16.EncodeDecode(units);
    Utf16.ToFromBeBytes(data);
  }

  /** `encode_legacy_kick_packet`.  The unit count is cast `as u16`: a
      payload of 65536 units or more gets a count that has wrapped, while
      all of its units are still written. */
  function EncodeKickPacket(payload: string): (r: seq<byte>)
    ensures |r| == 3 + 2 * |Utf16.Encode(payload)|
    ensures r[0] == LEGACY_KICK_PACKET_ID
    ensures FromBe(r[1..3]) == |Utf16.Encode(payload)| % 0x1_0000
    ensures r[3..] == EncodeUtf16Be(payload)
  {
    var units := Utf16.Encode(payload);
    var r := [LEGACY_KICK_PACKET_ID] + U16ToBe(|units| % 0x1_0000) + Utf16.ToBeBytes(units);
    assert r[1..3] == U16ToBe(|units| % 0x1_0000);
    r
  }

  /** How a client reads a kick packet: the id, the count, then that many
      units decoded. */
  function KickPayload(packet: seq<byte>): (r: Option<string>)
  {
    if |packet| < 3 || packet[0] != LEGACY_KICK_PACKET_ID then None
    else
      var n := FromBe(packet[1..3]);
      if |packet| < 3 + 2 * n then None
      else DecodeUtf16Be(packet[3..3 + 2 * n]).ToOption()
  }

  /** A payload of fewer than 65536 units reads back from its kick packet. */
  lemma KickRoundTrip(payload: string)
    requires |Utf16.Encode(payload)| < 0x1_0000
    ensures KickPayload(EncodeKickPacket(payload)) == Some(payload)
  {
    hide *;
    var packet := EncodeKickPacket(payload);
    var n := |Utf16.Encode(payload)|;
    assert packet[3..3 + 2 * n] == EncodeUtf16Be(payload);
    DecodeEncodeUtf16Be(payload);
    KickPayloadOf(packet, n, payload);
  }

  lemma KickPayloadOf(packet: seq<byte>, n: nat, s: string)
    requires |packet| >= 3 + 2 * n && packet[0] == LEGACY_KICK_PACKET_ID
    requires FromBe(packet[1..3]) == n
    requires DecodeUtf16Be(packet[3..3 + 2 * n]) == Ok(s)
    ensures KickPayload(packet) == Some(s)
  {
  }

  /** From 65536 units on, the count no longer says how long the packet is. */
  lemma KickCountWraps(payload: string)
    requires |Utf16.Encode(payload)| >= 0x1_0000
    ensures var packet := EncodeKickPacket(payload);
            3 + 2 * FromBe(packet[1..3]) < |packet|
  {
  }

  /** The Beta 1.8 to 1.3 status string: the MOTD, online count and maximum joined by section signs. */
  function BetaPayload(motd: string, onlinePlayers: i32, maxPlayers: i32): string {
    motd + [SECTION_SIGN] + IntToString(onlinePlayers) + [SECTION_SIGN] + IntToString(maxPlayers)
  }

  /** `build_legacy_kick_beta` */
  function BuildKickBeta(motd: string, onlinePlayers: i32, maxPlayers: i32): seq<byte> {
    EncodeKickPacket(BetaPayload(motd, onlinePlayers, maxPlayers))
  }

  lemma NumeralHasNoSeparators(n: int)
    ensures SECTION_SIGN !in IntToString(n) && '\0' !in IntToString(n)
  {
    var r := IntToString(n);
    forall i | 0 <= i < |r| ensures r[i] != SECTION_SIGN && r[i] != '\0' {
      assert IsAsciiDigit(r[i]) || r[i] == '-';
    }
  }

  /** A Beta kick packet reads back as the MOTD and the two player counts,
      split on the section sign, when the MOTD itself holds none. */
  lemma BetaKickFields(motd: string, onlinePlayers: i32, maxPlayers: i32)
    requires SECTION_SIGN !in motd
    requires |Utf16.Encode(BetaPayload(motd, onlinePlayers, maxPlayers))| < 0x1_0000
    ensures var p := KickPayload(BuildKickBeta(motd, onlinePlayers, maxPlayers));
            p.Some? && Split(p.value, [SECTION_SIGN])
                       == [motd, IntToString(onlinePlayers), IntToString(maxPlayers)]
  {
    var parts := [motd, IntToString(onlinePlayers), IntToString(maxPlayers)];
    NumeralHasNoSeparators(onlinePlayers);
    NumeralHasNoSeparators(maxPlayers);
    JoinThree(parts, [SECTION_SIGN]);
    SplitJoin(parts, [SECTION_SIGN]);
    KickRoundTrip(BetaPayload(motd, onlinePlayers, maxPlayers));
  }

  /** The 1.4+ status string: the section sign and `1`, then protocol, version name, MOTD and
      the two counts, each after a NUL. */
  function V1_4Payload(protocolVersion: i32, versionName: string, motd: string,
                       onlinePlayers: i32, maxPlayers: i32): string
  {
    [SECTION_SIGN] + "1" + "\0" + IntToString(protocolVersion) + "\0" + versionName + "\0" + motd
    + "\0" + IntToString(onlinePlayers) + "\0" + IntToString(maxPlayers)
  }

  /** `build_legacy_kick_v1_4` */
  function BuildKickV1_4(protocolVersion: i32, versionName: string, motd: string,
                         onlinePlayers: i32, maxPlayers: i32): seq<byte>
  {
    EncodeKickPacket(V1_4Payload(protocolVersion, versionName, motd, onlinePlayers, maxPlayers))
  }

  /** A 1.4+ kick packet reads back as six NUL-separated fields, when the
      version name and the MOTD hold no NUL. */
  lemma V1_4KickFields(protocolVersion: i32, versionName: string, motd: string,
                       onlinePlayers: i32, maxPlayers: i32)
    requires '\0' !in versionName && '\0' !in motd
    requires |Utf16.Encode(V1_4Payload(protocolVersion, versionName, motd, onlinePlayers, maxPlayers))| < 0x1_0000
    ensures var p := KickPayload(BuildKickV1_4(protocolVersion, versionName, motd, onlinePlayers, maxPlayers));
            p.Some? && Split(p.value, "\0")
                       == [[SECTION_SIGN] + "1", IntToString(protocolVersion), versionName, motd,
                           IntToString(onlinePlayers), IntToString(maxPlayers)]
  {
    var parts := [[SECTION_SIGN] + "1", IntToString(protocolVersion), versionName, motd,
                  IntToString(onlinePlayers), IntToString(maxPlayers)];
    NumeralHasNoSeparators(protocolVersion);
    NumeralHasNoSeparators(onlinePlayers);
    NumeralHasNoSeparators(maxPlayers);
    assert '\0' !in parts[0] by {
      assert parts[0] == [SECTION_SIGN, '1'];
    }
    JoinSix(parts, "\0");
    SplitJoin(parts, "\0");
    KickRoundTrip(V1_4Payload(protocolVersion, versionName, motd, onlinePlayers, maxPlayers));
  }
}
