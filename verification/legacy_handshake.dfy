/** The legacy (pre-1.7) login handshake
    (crates/infrarust_protocol/src/minecraft/java/legacy/handshake.rs).
    Packet 0x02 comes in two layouts.  From 1.3 on it is the protocol byte,
    two length-prefixed UTF-16BE strings (username, host) and a big-endian
    i32 port.  Before 1.3 it is one length-prefixed string
    `user;host:port`, and the zero high byte of its length is what tells
    the two layouts apart. */
module LegacyHandshake {
  import opened Bytes
  import opened Wrappers
  import opened Io
  import opened Text
  import Utf16
  import Primitives

  const LEGACY_HANDSHAKE_PACKET_ID: byte := 0x02
  /** The port a pre-1.3 connection string without a usable port gets. */
  const DEFAULT_PORT: i32 := 25565

  datatype LegacyHandshake = LegacyHandshake(protocolVersion: byte, username: string,
                                             hostname: string, port: i32)

  /** `{:02X}`: two upper-case hexadecimal digits. */
  function HexByte(b: byte): (r: string)
    ensures |r| == 2
  {
    var digits := "0123456789ABCDEF";
    [digits[b / 16], digits[b % 16]]
  }

  /** `read_legacy_string`: a big-endian u16 count of code units, then the
      units, big-endian.  A short input is UnexpectedEof, an unpaired
      surrogate InvalidData. */
  function ReadLegacyString(input: seq<byte>): (r: Result<Decoded<string>, IoError>)
    ensures |input| < 2 ==> r == Err(UnexpectedEof)
    ensures |input| >= 2 && |input| < 2 + 2 * FromBe(input[..2]) ==> r == Err(UnexpectedEof)
    ensures r.Ok? ==> |input| >= 2 && r.value.size == 2 + 2 * FromBe(input[..2])
                      && r.value.size <= |input|
  {
    var count :- Primitives.ReadUnsignedShort(input);
    var raw :- ReadExact(input[2..], 2 * count.value);
    match Utf16.Decode(Utf16.FromBeBytes(raw))
    case None => Err(InvalidData("Invalid UTF-16BE string: invalid utf-16: lone surrogate found"))
    case Some(s) => Ok(Decoded(s, 2 + 2 * count.value))
  }

  /** The layout `read_legacy_string` reads: the unit count, then the units. */
  function WriteLegacyString(s: string): (r: seq<byte>)
    requires |Utf16.Encode(s)| < 0x1_0000
    ensures |r| == 2 + 2 * |Utf16.Encode(s)|
  {
    var units := Utf16.Encode(s);
    Primitives.WriteUnsignedShort(|units|) + Utf16.ToBeBytes(units)
  }

  /** A string of fewer than 65536 code units reads back, and the reader
      consumes exactly what was written. */
  lemma LegacyStringRoundTrip(s: string, rest: seq<byte>)
    requires |Utf16.Encode(s)| < 0x1_0000
    ensures ReadLegacyString(WriteLegacyString(s) + rest)
         == Ok(Decoded(s, |WriteLegacyString(s)|))
  {
    hide *;
    var units := Utf16.Encode(s);
    var count := Primitives.WriteUnsignedShort(|units|);
    var raw := Utf16.ToBeBytes(units);
    var input := count + (raw + rest);
    WriteLegacyStringIs(s);
    assert WriteLegacyString(s) + rest == input;
    Primitives.UnsignedShortRoundTrip(|units|, raw + rest);
    AfterPrefix(count, raw + rest);
    assert (raw + rest)[..2 * |units|] == raw;
    Utf16.FromToBeBytes(units);
    Utf16.DecodeEncode(s);
    ReadLegacyStringOf(input, |units|, raw, s);
  }

  lemma WriteLegacyStringIs(s: string)
    requires |Utf16.Encode(s)| < 0x1_0000
    ensures WriteLegacyString(s)
         == Primitives.WriteUnsignedShort(|Utf16.Encode(s)|) + Utf16.ToBeBytes(Utf16.Encode(s))
    ensures |Utf16.ToBeBytes(Utf16.Encode(s))| == 2 * |Utf16.Encode(s)|
  {
  }

  /** The reader's steps: a count `n`, then `2n` bytes that decode to `s`. */
  lemma ReadLegacyStringOf(input: seq<byte>, n: nat, raw: seq<byte>, s: string)
    requires Primitives.ReadUnsignedShort(input) == Ok(Decoded(n, 2))
    requires |raw| == 2 * n && 2 + 2 * n <= |input| && input[2..][..2 * n] == raw
    requires Utf16.Decode(Utf16.FromBeBytes(raw)) == Some(s)
    ensures ReadLegacyString(input) == Ok(Decoded(s, 2 + 2 * n))
  {
  }

  /** `parse_pre_1_3_connection_string`: the username before the first
      `;`, the host up to the last `:` after it, and the port after that
      `:` if it parses as an i32.  Anything missing falls back to an empty
      host or port 25565. */
  function ParsePre13(s: string): (r: LegacyHandshake)
    ensures r.protocolVersion == 0
  {
    match SplitOnce(s, ";")
    case None => LegacyHandshake(0, s, "", DEFAULT_PORT)
    case Some((username, hostPort)) =>
      match RSplitOnceChar(hostPort, ':')
      case Some((hostname, portText)) =>
        var port := ParseSigned(portText, -0x8000_0000, 0x7FFF_FFFF).UnwrapOr(DEFAULT_PORT);
        LegacyHandshake(0, username, hostname, port)
      case None => LegacyHandshake(0, username, hostPort, DEFAULT_PORT)
  }

  /** A string with no `;` is all username: no host, the default port. */
  lemma Pre13WithoutSemicolon(s: string)
    requires ';' !in s
    ensures ParsePre13(s) == LegacyHandshake(0, s, "", DEFAULT_PORT)
  {
    CharContains(s, ';');
  }

  /** `user;host` without a `:` is a host without a port. */
  lemma Pre13WithoutColon(username: string, host: string)
    requires ';' !in username && ':' !in host
    ensures ParsePre13(username + ";" + host) == LegacyHandshake(0, username, host, DEFAULT_PORT)
  {
    SplitOnceAfterFreePrefix(username, ";", host);
  }

  /** `user;host:port` gives back all three; the host may itself hold
      colons, since the port is cut at the last one. */
  lemma Pre13Fields(username: string, host: string, port: i32)
    requires ';' !in username
    ensures ParsePre13(username + ";" + host + ":" + IntToString(port))
         == LegacyHandshake(0, username, host, port)
  {
    var portText := IntToString(port);
    assert ':' !in portText by {
      forall i | 0 <= i < |portText| ensures portText[i] != ':' {
        assert IsAsciiDigit(portText[i]) || portText[i] == '-';
      }
    }
    var hostPort := host + ":" + portText;
    assert username + ";" + host + ":" + portText == username + ";" + hostPort;
    SplitOnceAfterFreePrefix(username, ";", hostPort);
    LastSplitUnique(hostPort, ':', host, portText);
    ParseIntToString(port, -0x8000_0000, 0x7FFF_FFFF);
  }

  /** A port text that is no i32 numeral leaves the default port. */
  lemma Pre13BadPort(username: string, host: string, portText: string)
    requires ';' !in username && ':' !in portText
    requires ParseSigned(portText, -0x8000_0000, 0x7FFF_FFFF).None?
    ensures ParsePre13(username + ";" + host + ":" + portText)
         == LegacyHandshake(0, username, host, DEFAULT_PORT)
  {
    var hostPort := host + ":" + portText;
    assert username + ";" + host + ":" + portText == username + ";" + hostPort;
    SplitOnceAfterFreePrefix(username, ";", hostPort);
    LastSplitUnique(hostPort, ':', host, portText);
  }

  /** Cutting at the last `c` is the only cut whose tail has no `c`. */
  lemma LastSplitUnique(s: string, c: char, a: string, b: string)
    requires s == a + [c] + b && c !in b
    ensures RSplitOnceChar(s, c) == Some((a, b))
  {
    assert s[|a|] == c;
    var r := RSplitOnceChar(s, c).value;
    var i := |r.0|;
    assert s == r.0 + [c] + r.1;
    assert i == |a|;
    assert r.0 == s[..i] == a;
    assert r.1 == s[i + 1..] == b;
  }

  /** `parse_legacy_handshake` on the bytes of packet 0x02, id included. */
  function ParseLegacyHandshake(data: seq<byte>): (r: Result<LegacyHandshake, IoError>)
    ensures |data| == 0 ==> r == Err(InvalidData("Empty legacy handshake data"))
    ensures |data| > 0 && data[0] != LEGACY_HANDSHAKE_PACKET_ID ==> r.Err? && r.error.InvalidData?
    ensures |data| == 1 && data[0] == LEGACY_HANDSHAKE_PACKET_ID ==> r == Err(UnexpectedEof)
    ensures r.Ok? ==> |data| >= 2 && r.value.protocolVersion == data[1]
  {
    if |data| == 0 then Err(InvalidData("Empty legacy handshake data"))
    else if data[0] != LEGACY_HANDSHAKE_PACKET_ID then
      Err(InvalidData("Expected packet ID 0x02, got 0x" + HexByte(data[0])))
    else if |data| < 2 then Err(UnexpectedEof)
    else if data[1] == 0x00 then ParsePre13Body(data[2..])
    else Parse13Body(data[1], data[2..])
  }

  /** The pre-1.3 layout after the id and the zero byte: the low byte of
      the unit count, the units, and the connection string they spell. */
  function ParsePre13Body(body: seq<byte>): (r: Result<LegacyHandshake, IoError>)
    ensures r.Ok? ==> r.value.protocolVersion == 0
    ensures |body| == 0 ==> r == Err(UnexpectedEof)
  {
    if |body| < 1 then Err(UnexpectedEof)
    else
      var raw :- ReadExact(body[1..], body[0] as nat * 2);
      match Utf16.Decode(Utf16.FromBeBytes(raw))
      case None => Err(InvalidData("Invalid UTF-16BE connection string: invalid utf-16: lone surrogate found"))
      case Some(connection) => Ok(ParsePre13(connection))
  }

  /** The 1.3+ layout after the id and the protocol byte: username,
      hostname, port, read one after the other. */
  function Parse13Body(protocolVersion: byte, body: seq<byte>): (r: Result<LegacyHandshake, IoError>)
    ensures r.Ok? ==> r.value.protocolVersion == protocolVersion
  {
    var username :- ReadLegacyString(body);
    var afterUsername := body[username.size..];
    var hostname :- ReadLegacyString(afterUsername);
    var port :- Primitives.ReadInt(afterUsername[hostname.size..]);
    Ok(LegacyHandshake(protocolVersion, username.value, hostname.value, port.value))
  }

  /** A 1.3+ packet 0x02 as a client sends it. */
  function Build13(h: LegacyHandshake): seq<byte>
    requires |Utf16.Encode(h.username)| < 0x1_0000 && |Utf16.Encode(h.hostname)| < 0x1_0000
  {
    [LEGACY_HANDSHAKE_PACKET_ID, h.protocolVersion]
    + (WriteLegacyString(h.username) + (WriteLegacyString(h.hostname) + Primitives.WriteInt(h.port)))
  }

  /** Every 1.3+ handshake with a non-zero protocol byte parses back from
      its packet.  (A protocol byte of 0 would be taken for the pre-1.3
      layout.) */
  lemma Handshake13RoundTrip(h: LegacyHandshake, rest: seq<byte>)
    requires h.protocolVersion != 0
    requires |Utf16.Encode(h.username)| < 0x1_0000 && |Utf16.Encode(h.hostname)| < 0x1_0000
    ensures ParseLegacyHandshake(Build13(h) + rest) == Ok(h)
  {
    hide *;
    var u := WriteLegacyString(h.username);
    var n := WriteLegacyString(h.hostname);
    var p := Primitives.WriteInt(h.port);
    var header: seq<byte> := [LEGACY_HANDSHAKE_PACKET_ID, h.protocolVersion];
    var body := u + (n + (p + rest));
    Build13Is(h);
    assert Build13(h) + rest == header + body;
    LegacyStringRoundTrip(h.username, n + (p + rest));
    AfterPrefix(u, n + (p + rest));
    LegacyStringRoundTrip(h.hostname, p + rest);
    AfterPrefix(n, p + rest);
    Primitives.IntRoundTrip(h.port, rest);
    Parse13BodyOf(h, body, |u|, |n|);
    ParseHeaderOf(header, body, h.protocolVersion);
    assert h == LegacyHandshake(h.protocolVersion, h.username, h.hostname, h.port);
  }

  lemma Build13Is(h: LegacyHandshake)
    requires |Utf16.Encode(h.username)| < 0x1_0000 && |Utf16.Encode(h.hostname)| < 0x1_0000
    ensures Build13(h)
         == [LEGACY_HANDSHAKE_PACKET_ID, h.protocolVersion]
            + (WriteLegacyString(h.username) + (WriteLegacyString(h.hostname) + Primitives.WriteInt(h.port)))
  {
  }

  /** The 1.3+ body's steps: username, hostname, port. */
  lemma Parse13BodyOf(h: LegacyHandshake, body: seq<byte>, usize: nat, hsize: nat)
    requires ReadLegacyString(body) == Ok(Decoded(h.username, usize))
    requires ReadLegacyString(body[usize..]) == Ok(Decoded(h.hostname, hsize))
    requires Primitives.ReadInt(body[usize..][hsize..]) == Ok(Decoded(h.port, 4))
    ensures Parse13Body(h.protocolVersion, body) == Ok(h)
  {
  }

  /** The dispatch on the two header bytes, for a 1.3+ packet. */
  lemma ParseHeaderOf(header: seq<byte>, body: seq<byte>, protocolVersion: byte)
    requires header == [LEGACY_HANDSHAKE_PACKET_ID, protocolVersion] && protocolVersion != 0
    ensures ParseLegacyHandshake(header + body) == Parse13Body(protocolVersion, body)
  {
    AfterPrefix(header, body);
  }

  /** A pre-1.3 packet 0x02: the connection string's unit count, whose
      high byte (zero below 256 units) doubles as the layout marker. */
  function BuildPre13(connection: string): seq<byte>
    requires |Utf16.Encode(connection)| < 0x100
  {
    [LEGACY_HANDSHAKE_PACKET_ID] + WriteLegacyString(connection)
  }

  /** A pre-1.3 packet parses as its connection string does. */
  lemma Pre13RoundTrip(connection: string, rest: seq<byte>)
    requires |Utf16.Encode(connection)| < 0x100
    ensures ParseLegacyHandshake(BuildPre13(connection) + rest) == Ok(ParsePre13(connection))
  {
    hide *;
    var units := Utf16.Encode(connection);
    var raw := Utf16.ToBeBytes(units);
    var data := BuildPre13(connection) + rest;
    Pre13Layout(connection, rest);
    Utf16.FromToBeBytes(units);
    Utf16.DecodeEncode(connection);
    ParsePre13Of(data, |units|, raw, connection);
  }

  lemma Pre13Layout(connection: string, rest: seq<byte>)
    requires |Utf16.Encode(connection)| < 0x100
    ensures var units := Utf16.Encode(connection);
            var data := BuildPre13(connection) + rest;
            |data| >= 3 + 2 * |units| && data[0] == LEGACY_HANDSHAKE_PACKET_ID
            && data[1] == 0 && data[2] == |units|
            && data[3..][..2 * |units|] == Utf16.ToBeBytes(units)
  {
    var units := Utf16.Encode(connection);
    var data := BuildPre13(connection) + rest;
    assert data[3..][..2 * |units|] == Utf16.ToBeBytes(units);
  }

  /** The pre-1.3 branch's steps: a count below 256, then its units. */
  lemma ParsePre13Of(data: seq<byte>, n: nat, raw: seq<byte>, connection: string)
    requires |data| >= 3 + 2 * n && data[0] == LEGACY_HANDSHAKE_PACKET_ID
    requires data[1] == 0 && data[2] == n && |raw| == 2 * n && data[3..][..2 * n] == raw
    requires Utf16.Decode(Utf16.FromBeBytes(raw)) == Some(connection)
    ensures ParseLegacyHandshake(data) == Ok(ParsePre13(connection))
  {
    assert data[2..][1..] == data[3..];
  }

  /** `legacy_handshake_byte_length`: the size of the packet at the front
      of `data`, from its length fields alone; None when a length field
      itself is cut off. */
  function ByteLength(data: seq<byte>): (r: Option<nat>)
    ensures |data| < 2 ==> r.None?
    ensures r.Some? ==> r.value >= 3
  {
    if |data| < 2 then None
    else if data[1] == 0x00 then
      if |data| < 3 then None
      else Some(1 + 2 + FromBe([data[1], data[2]]) * 2)
    else
      var pos := 2;
      if |data| < pos + 2 then None
      else
        var pos := pos + 2 + FromBe(data[pos..pos + 2]) * 2;
        if |data| < pos + 2 then None
        else
          var pos := pos + 2 + FromBe(data[pos..pos + 2]) * 2;
          Some(pos + 4)
  }

  /** The byte length of a 1.3+ packet is the packet's length. */
  lemma ByteLength13(h: LegacyHandshake, rest: seq<byte>)
    requires h.protocolVersion != 0
    requires |Utf16.Encode(h.username)| < 0x1_0000 && |Utf16.Encode(h.hostname)| < 0x1_0000
    ensures ByteLength(Build13(h) + rest) == Some(|Build13(h)|)
  {
    hide *;
    var a := |Utf16.Encode(h.username)|;
    var b := |Utf16.Encode(h.hostname)|;
    var u := WriteLegacyString(h.username);
    var n := WriteLegacyString(h.hostname);
    var p := Primitives.WriteInt(h.port);
    var header: seq<byte> := [LEGACY_HANDSHAKE_PACKET_ID, h.protocolVersion];
    var data := header + (u + (n + (p + rest)));
    Build13Is(h);
    assert Build13(h) + rest == data;
    WriteLegacyStringIs(h.username);
    WriteLegacyStringIs(h.hostname);
    var uc := Primitives.WriteUnsignedShort(a);
    var nc := Primitives.WriteUnsignedShort(b);
    assert data[2..4] == uc;
    assert data[4 + 2 * a..6 + 2 * a] == nc;
    CountBytes(a);
    CountBytes(b);
    ByteLength13Of(data, a, b);
  }

  lemma CountBytes(a: u16)
    ensures FromBe(Primitives.WriteUnsignedShort(a)) == a
  {
  }

  lemma ByteLength13Of(data: seq<byte>, a: nat, b: nat)
    requires |data| >= 2 + 2 + 2 * a + 2 && data[1] != 0
    requires FromBe(data[2..4]) == a && FromBe(data[4 + 2 * a..6 + 2 * a]) == b
    ensures ByteLength(data) == Some(2 + 2 + 2 * a + 2 + 2 * b + 4)
  {
  }

  /** The byte length of a pre-1.3 packet is the packet's length. */
  lemma ByteLengthPre13(connection: string, rest: seq<byte>)
    requires |Utf16.Encode(connection)| < 0x100
    ensures ByteLength(BuildPre13(connection) + rest) == Some(|BuildPre13(connection)|)
  {
    Pre13Layout(connection, rest);
  }
}
