/** The PROXY protocol header reader
    (crates/infrarust/src/network/proxy_protocol/reader.rs): the text header
    of version 1 (section 2.1 of the HAProxy PROXY protocol specification)
    and the binary header of version 2 (section 2.2), read from the front of
    what an upstream proxy sends before the Minecraft traffic.  The stream is
    the sequence of bytes the upstream sends; only the client's source
    address is extracted. */
module ProxyProtocol {
  import opened Bytes
  import opened Wrappers
  import opened Text
  import opened Net
  import Utf8

  /** `PROXY `, the start of a version 1 line. */
  const V1_SIGNATURE: seq<byte> := [0x50, 0x52, 0x4F, 0x58, 0x59, 0x20]
  /** The twelve bytes every version 2 header starts with. */
  const V2_SIGNATURE: seq<byte> := [0x0D, 0x0A, 0x0D, 0x0A, 0x00, 0x0D, 0x0A, 0x51, 0x55, 0x49, 0x54, 0x0A]
  /** The longest version 1 line the reader takes, CR LF included. */
  const V1_MAX_LENGTH: nat := 108
  /** How many bytes are peeked to tell the versions apart. */
  const PEEK_LENGTH: nat := 12
  /** The fixed part of a version 2 header: signature, version and
      command, family and transport, address length. */
  const V2_FIXED_LENGTH: nat := 16
  const CR: byte := 0x0D
  const LF: byte := 0x0A
  /** What `read_exact` reports when the stream ends early. */
  const EARLY_EOF: string := "early eof"
  const TIMEOUT_MESSAGE: string := "Timeout waiting for proxy protocol header"
  const AF_INET: byte := 0x10
  const AF_INET6: byte := 0x20
  const AF_UNIX: byte := 0x30
  const AF_UNSPEC: byte := 0x00

  /** `ProxyProtocolError`, the variants the reader raises. */
  datatype ProxyError =
    | InvalidHeader(message: string)
    | Io(message: string)
    | InvalidLength(length: nat)
    | Other(message: string)

  /** `ProxyProtocolReader`.  `allowed_versions` is stored but never
      consulted when a header is read. */
  datatype Reader = Reader(enabled: bool, timeoutSecs: nat, allowedVersions: Option<seq<byte>>)

  /** `ProxyProtocolReader::default` */
  function DefaultReader(): (r: Reader)
    ensures !r.enabled && r.timeoutSecs == 5 && r.allowedVersions == None
  {
    Reader(false, 5, None)
  }

  /** How the first peek ended: with bytes, which are then the front of the
      stream, with an I/O error, or with the timeout. */
  datatype PeekOutcome = Peeked | PeekFailed(message: string) | PeekTimedOut

  /** A header read: the client's address when the header carries one, and
      how many bytes of the stream the header took. */
  datatype Header = Header(source: Option<SocketAddr>, consumed: nat)

  datatype Version = V1 | V2

  /** The 12-byte peek buffer: the bytes that arrived, then the zeros it
      was initialised with. */
  function PeekBuffer(stream: seq<byte>): (r: seq<byte>)
    ensures |r| == PEEK_LENGTH
    ensures forall i :: 0 <= i < PEEK_LENGTH ==> r[i] == if i < |stream| then stream[i] else 0
  {
    var n := if |stream| < PEEK_LENGTH then |stream| else PEEK_LENGTH;
    stream[..n] + seq(PEEK_LENGTH - n, _ => 0)
  }

  /** The version test of `read_header`: at least five bytes peeked, then
      `starts_with` on the zero-padded buffer.  Five bytes `PROXY` are not
      enough, since the padding is no space. */
  function Detect(stream: seq<byte>): (r: Option<Version>)
    ensures r == Some(V1) <==> |stream| >= 6 && stream[..6] == V1_SIGNATURE
    ensures r == Some(V2) <==> |stream| >= 12 && stream[..12] == V2_SIGNATURE
  {
    var n := if |stream| < PEEK_LENGTH then |stream| else PEEK_LENGTH;
    var buf := PeekBuffer(stream);
    if n < 5 then None
    else if buf[..6] == V1_SIGNATURE then
      assert buf[5] != 0;
      Some(V1)
    else if n >= 12 && buf[..12] == V2_SIGNATURE then Some(V2)
    else
      assert |stream| >= 6 ==> stream[..6] == buf[..6];
      assert |stream| >= 12 ==> stream[..12] == buf[..12];
      None
  }

  /** `read_header`: nothing when the reader is disabled or no signature
      is seen, otherwise the version's own reader. */
  function ReadHeader(reader: Reader, stream: seq<byte>, peek: PeekOutcome,
                      parseIpv6: string -> Option<Ipv6Octets>): (r: Result<Header, ProxyError>)
    ensures !reader.enabled ==> r == Ok(Header(None, 0))
    ensures reader.enabled && peek == PeekTimedOut ==> r == Err(Other(TIMEOUT_MESSAGE))
    ensures reader.enabled && peek.PeekFailed? ==> r == Err(Io(peek.message))
    ensures reader.enabled && peek == Peeked && Detect(stream) == None ==> r == Ok(Header(None, 0))
    ensures r.Ok? ==> r.value.consumed <= |stream|
    ensures r.Ok? && r.value.consumed > 0 ==> reader.enabled && Detect(stream).Some?
  {
    if !reader.enabled then Ok(Header(None, 0))
    else
      match peek
      case PeekFailed(message) => Err(Io(message))
      case PeekTimedOut => Err(Other(TIMEOUT_MESSAGE))
      case Peeked =>
        match Detect(stream)
        case None => Ok(Header(None, 0))
        case Some(V1) => ReadV1Header(stream, parseIpv6)
        case Some(V2) => ReadV2Header(stream)
  }

  // Version 1

  /** The line ends with CR LF after j bytes. */
  predicate EndsWithCrlf(stream: seq<byte>, j: int) {
    2 <= j <= |stream| && stream[j - 2] == CR && stream[j - 1] == LF
  }

  /** The byte-at-a-time loop of `read_v1_header`, from k bytes read on: it
      stops after the first CR LF or at 108 bytes, and fails when the stream
      ends first. */
  function ScanV1(stream: seq<byte>, k: nat): (r: Result<nat, ProxyError>)
    requires k <= V1_MAX_LENGTH && k <= |stream|
    ensures r.Ok? ==> k <= r.value <= V1_MAX_LENGTH && r.value <= |stream|
    ensures r.Ok? ==> r.value == V1_MAX_LENGTH || EndsWithCrlf(stream, r.value)
    ensures r.Ok? ==> forall j :: k < j < r.value ==> !EndsWithCrlf(stream, j)
    ensures r.Err? <==> |stream| < V1_MAX_LENGTH && forall j :: k < j <= |stream| ==> !EndsWithCrlf(stream, j)
    ensures r.Err? ==> r.error == Io(EARLY_EOF)
    decreases V1_MAX_LENGTH - k
  {
    if k == V1_MAX_LENGTH then Ok(k)
    else if k == |stream| then Err(Io(EARLY_EOF))
    else if k > 0 && stream[k - 1] == CR && stream[k] == LF then
      assert EndsWithCrlf(stream, k + 1);
      Ok(k + 1)
    else ScanV1(stream, k + 1)
  }

  /** The first half of `read_v1_header`: the line up to its CR LF (or its
      first 108 bytes) and its text, or the error reading it raises. */
  function V1Text(stream: seq<byte>): (r: Result<(nat, string), ProxyError>)
    ensures r.Ok? ==> 0 < r.value.0 <= V1_MAX_LENGTH && r.value.0 <= |stream|
    ensures r.Ok? ==> r.value.0 == V1_MAX_LENGTH || EndsWithCrlf(stream, r.value.0)
    ensures r.Ok? ==> ScanV1(stream, 0) == Ok(r.value.0) && Utf8.Decode(stream[..r.value.0]) == Some(r.value.1)
    ensures ScanV1(stream, 0).Err? ==> r == Err(ScanV1(stream, 0).error)
    ensures ScanV1(stream, 0).Ok? && Utf8.Decode(stream[..ScanV1(stream, 0).value]) == None
            ==> r == Err(InvalidHeader("Invalid UTF-8"))
  {
    var length :- ScanV1(stream, 0);
    match Utf8.Decode(stream[..length])
    case None => Err(InvalidHeader("Invalid UTF-8"))
    case Some(text) => Ok((length, text))
  }

  /** `read_v1_header`: the line, then UTF-8, then the whitespace-separated
      fields, checked as the code is written. */
  function ReadV1Header(stream: seq<byte>, parseIpv6: string -> Option<Ipv6Octets>): (r: Result<Header, ProxyError>)
    ensures V1Text(stream).Err? ==> r == Err(V1Text(stream).error)
    ensures V1Text(stream).Ok? ==>
              r == match V1SourceAsWritten(SplitWhitespace(V1Text(stream).value.1), parseIpv6)
                   case Ok(source) => Ok(Header(source, V1Text(stream).value.0))
                   case Err(e) => Err(e)
    ensures r.Ok? ==> 0 < r.value.consumed <= V1_MAX_LENGTH && r.value.consumed <= |stream|
    ensures r.Ok? ==> r.value.consumed == V1_MAX_LENGTH || EndsWithCrlf(stream, r.value.consumed)
  {
    var line :- V1Text(stream);
    match V1SourceAsWritten(SplitWhitespace(line.1), parseIpv6)
    case Err(e) => Err(e)
    case Ok(source) => Ok(Header(source, line.0))
  }

  /** `read_v1_header` with the fields taken as evidently intended
      (`V1Source`): it differs from the code as written only by accepting
      `UNKNOWN` lines that the code refuses, taking them whole with no
      address. */
  function ReadV1HeaderIntended(stream: seq<byte>, parseIpv6: string -> Option<Ipv6Octets>)
    : (r: Result<Header, ProxyError>)
    ensures V1Text(stream).Err? ==> r == Err(V1Text(stream).error)
    ensures V1Text(stream).Ok? ==>
              r == match V1Source(SplitWhitespace(V1Text(stream).value.1), parseIpv6)
                   case Ok(source) => Ok(Header(source, V1Text(stream).value.0))
                   case Err(e) => Err(e)
    ensures r != ReadV1Header(stream, parseIpv6) ==>
              ReadV1Header(stream, parseIpv6).Err? && r.Ok? && r.value.source.None?
    ensures r.Ok? && r.value.source.Some? ==> r == ReadV1Header(stream, parseIpv6)
  {
    var line :- V1Text(stream);
    match V1Source(SplitWhitespace(line.1), parseIpv6)
    case Err(e) => Err(e)
    case Ok(source) => Ok(Header(source, line.0))
  }

  /** The checks of `read_v1_header` on the fields, in the order the code
      makes them: at least six fields, `PROXY` first, a u16 source port in
      the fifth, and only then the family in the second. */
  function V1SourceAsWritten(parts: seq<string>, parseIpv6: string -> Option<Ipv6Octets>)
    : (r: Result<Option<SocketAddr>, ProxyError>)
    ensures |parts| < 6 ==> r == Err(InvalidHeader("Invalid v1 format"))
    ensures |parts| >= 6 && parts[0] != "PROXY" ==> r == Err(InvalidHeader("Missing PROXY prefix"))
    ensures r.Ok? ==> |parts| >= 6 && parts[0] == "PROXY" && ParseUnsigned(parts[4], 0xFFFF).Some?
    ensures r.Ok? ==> r == V1Address(parts[1], parts[2], ParseUnsigned(parts[4], 0xFFFF).value, parseIpv6)
  {
    if |parts| < 6 then Err(InvalidHeader("Invalid v1 format"))
    else if parts[0] != "PROXY" then Err(InvalidHeader("Missing PROXY prefix"))
    else
      match ParseUnsigned(parts[4], 0xFFFF)
      case None => Err(InvalidHeader("Invalid source port"))
      case Some(port) => V1Address(parts[1], parts[2], port, parseIpv6)
  }

  /** The fields as the reader evidently means to take them: a line whose
      family is `UNKNOWN` carries no address, whatever follows (section 2.1
      of the HAProxy PROXY protocol specification lets a sender write
      `PROXY UNKNOWN` alone).  Everywhere else it is the code as written. */
  function V1Source(parts: seq<string>, parseIpv6: string -> Option<Ipv6Octets>)
    : (r: Result<Option<SocketAddr>, ProxyError>)
    ensures |parts| >= 2 && parts[0] == "PROXY" && parts[1] == "UNKNOWN" ==> r == Ok(None)
    ensures r != V1SourceAsWritten(parts, parseIpv6) ==> |parts| >= 2 && parts[0] == "PROXY" && parts[1] == "UNKNOWN"
    ensures r.Ok? && r.value.Some? ==> r == V1SourceAsWritten(parts, parseIpv6)
  {
    if |parts| >= 2 && parts[0] == "PROXY" && parts[1] == "UNKNOWN" then Ok(None)
    else V1SourceAsWritten(parts, parseIpv6)
  }

  /** The `match proto` of `read_v1_header`.  IPv6 text is parsed by the
      given function (`Ipv6Addr::from_str` is not part of this model). */
  function V1Address(family: string, source: string, port: u16, parseIpv6: string -> Option<Ipv6Octets>)
    : (r: Result<Option<SocketAddr>, ProxyError>)
    ensures r == Ok(None) <==> family == "UNKNOWN"
    ensures r.Ok? && r.value.Some? ==> r.value.value.port == port
    ensures r.Ok? && r.value.Some? ==>
              (family == "TCP4" && Some(r.value.value.ip) == (match ParseIpv4(source) case Some(o) => Some(V4(o)) case None => None))
              || (family == "TCP6" && Some(r.value.value.ip) == (match parseIpv6(source) case Some(o) => Some(V6(o)) case None => None))
    ensures family != "TCP4" && family != "TCP6" && family != "UNKNOWN"
            ==> r == Err(InvalidHeader("Unknown protocol: " + family))
  {
    if family == "TCP4" then
      match ParseIpv4(source)
      case None => Err(InvalidHeader("Invalid IPv4"))
      case Some(o) => Ok(Some(SocketAddr(V4(o), port)))
    else if family == "TCP6" then
      match parseIpv6(source)
      case None => Err(InvalidHeader("Invalid IPv6"))
      case Some(o) => Ok(Some(SocketAddr(V6(o), port)))
    else if family == "UNKNOWN" then Ok(None)
    else Err(InvalidHeader("Unknown protocol: " + family))
  }

  // Version 2

  /** `byte & 0xF0`: the address family, the high nibble of byte 13. */
  function Family(b: byte): (r: byte)
    ensures r % 16 == 0 && r <= b < r + 16
  {
    b - b % 16
  }

  /** `{:#x}` of a family the reader does not know (0x40 and up). */
  function FamilyHex(family: byte): (r: string)
    requires family % 16 == 0 && family >= 0x40
    ensures |r| == 4 && r[..2] == "0x" && r[3] == '0'
  {
    "0x" + ["0123456789abcdef"[family / 16], '0']
  }

  /** `read_v2_header`: the sixteen fixed bytes, the address block whose
      length is big-endian bytes 14 and 15, then the family decides. */
  function ReadV2Header(stream: seq<byte>): (r: Result<Header, ProxyError>)
    ensures |stream| < V2_FIXED_LENGTH ==> r == Err(Io(EARLY_EOF))
    ensures r.Ok? ==> |stream| >= V2_FIXED_LENGTH && stream[..12] == V2_SIGNATURE
    ensures r.Ok? ==> r.value.consumed == V2_FIXED_LENGTH + FromBe(stream[14..16]) <= |stream|
    ensures (|stream| >= V2_FIXED_LENGTH && stream[..12] == V2_SIGNATURE
             && |stream| < V2_FIXED_LENGTH + FromBe(stream[14..16])) ==> r == Err(Io(EARLY_EOF))
  {
    if |stream| < V2_FIXED_LENGTH then Err(Io(EARLY_EOF))
    else
      var header := stream[..V2_FIXED_LENGTH];
      if header[..12] != V2_SIGNATURE then Err(InvalidHeader("Invalid v2 signature"))
      else
        var addrLength: nat := header[14] as nat * 0x100 + header[15] as nat;
        assert FromBe(stream[14..16]) == addrLength by {
          assert stream[14..16][..1] == [header[14]];
        }
        var rest := stream[V2_FIXED_LENGTH..];
        if |rest| < addrLength then Err(Io(EARLY_EOF))
        else
          match V2Address(Family(header[13]), rest[..addrLength])
          case Err(e) => Err(e)
          case Ok(source) => Ok(Header(source, V2_FIXED_LENGTH + addrLength))
  }

  /** The `match family` of `read_v2_header` over the address block. */
  function V2Address(family: byte, addr: seq<byte>): (r: Result<Option<SocketAddr>, ProxyError>)
    requires family % 16 == 0
    ensures r == Ok(None) <==> family == AF_UNIX || family == AF_UNSPEC
    ensures r.Ok? && r.value.Some? ==>
              (family == AF_INET && |addr| >= 12
               && r.value.value == SocketAddr(V4(addr[..4]), FromBe(addr[8..10])))
              || (family == AF_INET6 && |addr| >= 36
                  && r.value.value == SocketAddr(V6(addr[..16]), FromBe(addr[32..34])))
    ensures (family == AF_INET && |addr| < 12) || (family == AF_INET6 && |addr| < 36)
            ==> r == Err(InvalidLength(|addr|))
    ensures family !in {AF_INET, AF_INET6, AF_UNIX, AF_UNSPEC}
            ==> r.Err? && r.error.InvalidHeader? && r.error.message == "Unknown family: " + FamilyHex(family)
  {
    if family == AF_INET then
      if |addr| >= 12 then
        var port: u16 := addr[8] as nat * 0x100 + addr[9] as nat;
        assert FromBe(addr[8..10]) == port by {
          assert addr[8..10][..1] == [addr[8]];
        }
        Ok(Some(SocketAddr(V4(addr[..4]), port)))
      else Err(InvalidLength(|addr|))
    else if family == AF_INET6 then
      if |addr| >= 36 then
        var port: u16 := addr[32] as nat * 0x100 + addr[33] as nat;
        assert FromBe(addr[32..34]) == port by {
          assert addr[32..34][..1] == [addr[32]];
        }
        Ok(Some(SocketAddr(V6(addr[..16]), port)))
      else Err(InvalidLength(|addr|))
    else if family == AF_UNIX || family == AF_UNSPEC then Ok(None)
    else Err(InvalidHeader("Unknown family: " + FamilyHex(family)))
  }

  // What an upstream proxy sends, and what the reader makes of it

  /** A field of a version 1 line: ASCII, non-empty, no whitespace. */
  predicate IsV1Word(w: string) {
    |w| > 0 && IsAsciiText(w) && forall i :: 0 <= i < |w| ==> !IsWhitespace(w[i])
  }

  /** A version 1 line: the fields separated by single spaces, then CR LF. */
  function V1Line(words: seq<string>): string
    requires |words| >= 1
  {
    Join(words, " ") + "\r\n"
  }

  /** A version 1 line that starts with `PROXY` and fits in 108 bytes is
      taken whole, and the fields the reader sees are the words it was
      built from. */
  lemma ReadV1Line(reader: Reader, words: seq<string>, parseIpv6: string -> Option<Ipv6Octets>,
                   rest: seq<byte>)
    requires reader.enabled
    requires |words| >= 2 && words[0] == "PROXY"
    requires forall k :: 0 <= k < |words| ==> IsV1Word(words[k])
    requires |V1Line(words)| <= V1_MAX_LENGTH
    ensures ReadHeader(reader, Utf8.Encode(V1Line(words)) + rest, Peeked, parseIpv6)
         == match V1SourceAsWritten(words, parseIpv6)
            case Ok(source) => Ok(Header(source, |V1Line(words)|))
            case Err(e) => Err(e)
    ensures ReadV1HeaderIntended(Utf8.Encode(V1Line(words)) + rest, parseIpv6)
         == match V1Source(words, parseIpv6)
            case Ok(source) => Ok(Header(source, |V1Line(words)|))
            case Err(e) => Err(e)
  {
    hide *;
    var line := V1Line(words);
    var stream := Utf8.Encode(line) + rest;
    V1LineShape(words);
    V1LineScan(line, |line| - 2, rest);
    V1LineDetect(line, rest);
    Utf8.DecodeEncode(line);
    SplitWords(words);
    ReadV1HeaderOf(stream, |line|, line, parseIpv6);
    ReadHeaderV1Of(reader, stream, parseIpv6);
  }

  /** What the scan and the version test need to know of a line. */
  lemma V1LineShape(words: seq<string>)
    requires |words| >= 2 && words[0] == "PROXY"
    requires forall k :: 0 <= k < |words| ==> IsV1Word(words[k])
    ensures var line := V1Line(words);
            IsAsciiText(line) && |line| >= 8
            && line[0] == 'P' && line[1] == 'R' && line[2] == 'O' && line[3] == 'X' && line[4] == 'Y' && line[5] == ' '
            && line[|line| - 2..] == "\r\n"
            && forall j :: 0 <= j < |line| - 2 ==> line[j] != '\r'
  {
    var text := Join(words, " ");
    forall k | 0 <= k < |words| ensures IsAsciiText(words[k]) && '\r' !in words[k] {
      assert forall i :: 0 <= i < |words[k]| ==> words[k][i] != '\r';
    }
    JoinAsciiText(words, " ");
    NoCharInJoin(words, " ", '\r');
    JoinCons(words, " ");
    var line := V1Line(words);
    assert line == text + "\r\n";
    assert line[..6] == "PROXY ";
    assert line[0] == line[..6][0] && line[1] == line[..6][1] && line[2] == line[..6][2];
    assert line[3] == line[..6][3] && line[4] == line[..6][4] && line[5] == line[..6][5];
    forall j | 0 <= j < |line| - 2 ensures line[j] != '\r' {
      assert line[j] == text[j];
    }
  }

  /** The bytes of an ASCII line ending in its first CR LF are scanned to
      their end. */
  lemma V1LineScan(line: string, n: nat, rest: seq<byte>)
    requires IsAsciiText(line) && |line| == n + 2 && |line| <= V1_MAX_LENGTH
    requires line[n..] == "\r\n"
    requires forall j :: 0 <= j < n ==> line[j] != '\r'
    ensures ScanV1(Utf8.Encode(line) + rest, 0) == Ok(|line|)
    ensures (Utf8.Encode(line) + rest)[..|line|] == Utf8.Encode(line)
  {
    var stream := Utf8.Encode(line) + rest;
    Utf8.EncodeAscii(line);
    forall j | 0 <= j < n ensures stream[j] != CR {
      assert stream[j] == line[j] as int;
    }
    assert stream[n] == line[n] as int && line[n] == '\r';
    assert stream[n + 1] == line[n + 1] as int && line[n + 1] == '\n';
    ScanToCrlf(stream, 0, n);
  }

  lemma V1LineDetect(line: string, rest: seq<byte>)
    requires IsAsciiText(line) && |line| >= 6
    requires line[0] == 'P' && line[1] == 'R' && line[2] == 'O' && line[3] == 'X' && line[4] == 'Y' && line[5] == ' '
    ensures Detect(Utf8.Encode(line) + rest) == Some(V1)
  {
    var e := Utf8.Encode(line);
    Utf8.EncodeAscii(line);
    V1Detected(e + rest);
  }

  lemma V1Detected(stream: seq<byte>)
    requires |stream| >= 6 && stream[0] == 0x50 && stream[1] == 0x52 && stream[2] == 0x4F
    requires stream[3] == 0x58 && stream[4] == 0x59 && stream[5] == 0x20
    ensures Detect(stream) == Some(V1)
  {
    assert stream[..6] == V1_SIGNATURE;
  }

  lemma ReadV1HeaderOf(stream: seq<byte>, length: nat, text: string,
                       parseIpv6: string -> Option<Ipv6Octets>)
    requires ScanV1(stream, 0) == Ok(length)
    requires length <= |stream| && Utf8.Decode(stream[..length]) == Some(text)
    ensures ReadV1Header(stream, parseIpv6)
         == match V1SourceAsWritten(SplitWhitespace(text), parseIpv6)
            case Ok(source) => Ok(Header(source, length))
            case Err(e) => Err(e)
    ensures ReadV1HeaderIntended(stream, parseIpv6)
         == match V1Source(SplitWhitespace(text), parseIpv6)
            case Ok(source) => Ok(Header(source, length))
            case Err(e) => Err(e)
  {
  }

  lemma ReadHeaderV1Of(reader: Reader, stream: seq<byte>, parseIpv6: string -> Option<Ipv6Octets>)
    requires reader.enabled && Detect(stream) == Some(V1)
    ensures ReadHeader(reader, stream, Peeked, parseIpv6) == ReadV1Header(stream, parseIpv6)
  {
  }

  /** The scan stops right after the first CR LF when it ends a line of
      n bytes without any earlier CR. */
  lemma {:induction false} ScanToCrlf(stream: seq<byte>, k: nat, n: nat)
    requires n + 2 <= |stream| && n + 2 <= V1_MAX_LENGTH && k <= n + 1
    requires stream[n] == CR && stream[n + 1] == LF
    requires forall j :: 0 <= j < n ==> stream[j] != CR
    ensures ScanV1(stream, k) == Ok(n + 2)
    decreases n + 1 - k
  {
    if k <= n {
      ScanToCrlf(stream, k + 1, n);
    }
  }

  /** Whitespace splitting gives back the words of a line. */
  lemma {:induction false} SplitWords(words: seq<string>)
    requires |words| >= 1
    requires forall k :: 0 <= k < |words| ==> IsV1Word(words[k])
    ensures SplitWhitespace(V1Line(words)) == words
  {
    var w := words[0];
    if |words| == 1 {
      WordThen(w, "\r\n");
      assert "\r\n"[1..] == "\n";
      assert SplitWhitespace("\r\n") == [];
    } else {
      var tail := Join(words[1..], " ") + "\r\n";
      JoinCons(words, " ");
      assert Join(words, " ") + "\r\n" == w + (" " + tail);
      WordThen(w, " " + tail);
      assert (" " + tail)[1..] == tail;
      SplitWords(words[1..]);
      assert tail == V1Line(words[1..]);
      assert words == [w] + words[1..];
    }
  }

  lemma WordThen(w: string, rest: string)
    requires IsV1Word(w)
    requires |rest| > 0 && IsWhitespace(rest[0])
    ensures SplitWhitespace(w + rest) == [w] + SplitWhitespace(rest)
  {
    WordLengthOf(w, rest);
    assert (w + rest)[..|w|] == w && (w + rest)[|w|..] == rest;
  }

  lemma {:induction false} WordLengthOf(w: string, rest: string)
    requires forall i :: 0 <= i < |w| ==> !IsWhitespace(w[i])
    requires |rest| > 0 && IsWhitespace(rest[0])
    ensures WordLength(w + rest) == |w|
  {
    if |w| > 0 {
      WordLengthOf(w[1..], rest);
      assert (w + rest)[1..] == w[1..] + rest;
    }
  }

  /** The line an upstream writes for a TCP connection over IPv4. */
  function V1Tcp4Words(src: Ipv4Octets, dst: Ipv4Octets, srcPort: u16, dstPort: u16): seq<string> {
    ["PROXY", "TCP4", FormatIpv4(src), FormatIpv4(dst), NatToString(srcPort), NatToString(dstPort)]
  }

  lemma NumeralWord(n: nat)
    requires n < 0x1_0000
    ensures IsV1Word(NatToString(n)) && |NatToString(n)| <= 5
  {
    NatToStringLength(n);
  }

  lemma Ipv4Word(o: Ipv4Octets)
    ensures IsV1Word(FormatIpv4(o)) && |FormatIpv4(o)| <= 15
  {
    FormatIpv4Shape(o);
  }

  lemma KeywordWords()
    ensures IsV1Word("PROXY") && IsV1Word("TCP4") && IsV1Word("TCP6") && IsV1Word("UNKNOWN")
  {
  }

  /** A TCP4 line gives the client's address and port, and the reader takes
      exactly the line. */
  lemma V1Tcp4RoundTrip(reader: Reader, src: Ipv4Octets, dst: Ipv4Octets, srcPort: u16, dstPort: u16,
                        parseIpv6: string -> Option<Ipv6Octets>, rest: seq<byte>)
    requires reader.enabled
    ensures var line := V1Line(V1Tcp4Words(src, dst, srcPort, dstPort));
            ReadHeader(reader, Utf8.Encode(line) + rest, Peeked, parseIpv6)
            == Ok(Header(Some(SocketAddr(V4(src), srcPort)), |line|))
  {
    hide *;
    var words := V1Tcp4Words(src, dst, srcPort, dstPort);
    V1Tcp4Line(src, dst, srcPort, dstPort);
    ReadV1Line(reader, words, parseIpv6, rest);
    V1Tcp4Source(src, dst, srcPort, dstPort, parseIpv6);
  }

  lemma V1Tcp4Line(src: Ipv4Octets, dst: Ipv4Octets, srcPort: u16, dstPort: u16)
    ensures var words := V1Tcp4Words(src, dst, srcPort, dstPort);
            |words| >= 2 && words[0] == "PROXY"
            && (forall k :: 0 <= k < |words| ==> IsV1Word(words[k]))
            && |V1Line(words)| <= V1_MAX_LENGTH
  {
    var words := V1Tcp4Words(src, dst, srcPort, dstPort);
    Ipv4Word(src);
    Ipv4Word(dst);
    NumeralWord(srcPort);
    NumeralWord(dstPort);
    KeywordWords();
    JoinSix(words, " ");
  }

  lemma V1Tcp4Source(src: Ipv4Octets, dst: Ipv4Octets, srcPort: u16, dstPort: u16,
                     parseIpv6: string -> Option<Ipv6Octets>)
    ensures V1SourceAsWritten(V1Tcp4Words(src, dst, srcPort, dstPort), parseIpv6) == Ok(Some(SocketAddr(V4(src), srcPort)))
  {
    ParseNatToString(srcPort, 0xFFFF);
    ParseFormatIpv4(src);
  }

  /** The line an upstream writes for a TCP connection over IPv6, with the
      addresses as text. */
  function V1Tcp6Words(src: string, dst: string, srcPort: u16, dstPort: u16): seq<string> {
    ["PROXY", "TCP6", src, dst, NatToString(srcPort), NatToString(dstPort)]
  }

  /** A TCP6 line whose addresses are at most 39 characters (the longest
      form section 2.1 of the HAProxy PROXY protocol specification lets a
      sender use) gives the client's address and port. */
  lemma V1Tcp6RoundTrip(reader: Reader, src: string, dst: string, address: Ipv6Octets,
                        srcPort: u16, dstPort: u16,
                        parseIpv6: string -> Option<Ipv6Octets>, rest: seq<byte>)
    requires reader.enabled
    requires IsV1Word(src) && IsV1Word(dst) && |src| <= 39 && |dst| <= 39
    requires parseIpv6(src) == Some(address)
    ensures var line := V1Line(V1Tcp6Words(src, dst, srcPort, dstPort));
            ReadHeader(reader, Utf8.Encode(line) + rest, Peeked, parseIpv6)
            == Ok(Header(Some(SocketAddr(V6(address), srcPort)), |line|))
  {
    hide *;
    var words := V1Tcp6Words(src, dst, srcPort, dstPort);
    V1Tcp6Line(src, dst, srcPort, dstPort);
    ReadV1Line(reader, words, parseIpv6, rest);
    V1Tcp6Source(src, dst, address, srcPort, dstPort, parseIpv6);
  }

  lemma V1Tcp6Line(src: string, dst: string, srcPort: u16, dstPort: u16)
    requires IsV1Word(src) && IsV1Word(dst) && |src| <= 39 && |dst| <= 39
    ensures var words := V1Tcp6Words(src, dst, srcPort, dstPort);
            |words| >= 2 && words[0] == "PROXY"
            && (forall k :: 0 <= k < |words| ==> IsV1Word(words[k]))
            && |V1Line(words)| <= V1_MAX_LENGTH
  {
    var words := V1Tcp6Words(src, dst, srcPort, dstPort);
    NumeralWord(srcPort);
    NumeralWord(dstPort);
    KeywordWords();
    JoinSix(words, " ");
  }

  lemma V1Tcp6Source(src: string, dst: string, address: Ipv6Octets, srcPort: u16, dstPort: u16,
                     parseIpv6: string -> Option<Ipv6Octets>)
    requires parseIpv6(src) == Some(address)
    ensures V1SourceAsWritten(V1Tcp6Words(src, dst, srcPort, dstPort), parseIpv6) == Ok(Some(SocketAddr(V6(address), srcPort)))
  {
    ParseNatToString(srcPort, 0xFFFF);
  }

  /** `PROXY UNKNOWN` alone is the short form of section 2.1 of the HAProxy
      PROXY protocol specification: as the code is written it fails the
      six-field check, while the evidently intended reading gives no
      address. */
  lemma V1ShortUnknown(parseIpv6: string -> Option<Ipv6Octets>)
    ensures V1SourceAsWritten(["PROXY", "UNKNOWN"], parseIpv6) == Err(InvalidHeader("Invalid v1 format"))
    ensures V1Source(["PROXY", "UNKNOWN"], parseIpv6) == Ok(None)
  {
  }

  /** The short `UNKNOWN` line: the reader as written refuses it, while the
      evidently intended reader takes it whole with no address. */
  lemma V1ShortUnknownLine(reader: Reader, parseIpv6: string -> Option<Ipv6Octets>, rest: seq<byte>)
    requires reader.enabled
    ensures V1Line(["PROXY", "UNKNOWN"]) == "PROXY UNKNOWN\r\n"
    ensures ReadHeader(reader, Utf8.Encode("PROXY UNKNOWN\r\n") + rest, Peeked, parseIpv6)
         == Err(InvalidHeader("Invalid v1 format"))
    ensures ReadV1HeaderIntended(Utf8.Encode("PROXY UNKNOWN\r\n") + rest, parseIpv6)
         == Ok(Header(None, 15))
  {
    hide *;
    var words := ["PROXY", "UNKNOWN"];
    ShortUnknownLine();
    ReadV1Line(reader, words, parseIpv6, rest);
    V1ShortUnknown(parseIpv6);
  }

  lemma ShortUnknownLine()
    ensures var words := ["PROXY", "UNKNOWN"];
            (forall k :: 0 <= k < |words| ==> IsV1Word(words[k]))
            && V1Line(words) == "PROXY UNKNOWN\r\n" && |V1Line(words)| == 15 <= V1_MAX_LENGTH
  {
    KeywordWords();
    JoinCons(["PROXY", "UNKNOWN"], " ");
  }

  /** A version 2 header: signature, version and command, family and
      transport, the address block's length and the block. */
  function V2Frame(versionCommand: byte, familyTransport: byte, addr: seq<byte>): seq<byte>
    requires |addr| < 0x1_0000
  {
    V2_SIGNATURE + [versionCommand, familyTransport] + U16ToBe(|addr|) + addr
  }

  /** A version 2 header is taken up to the end of its address block, which
      the family then reads; the version and command byte is not looked at. */
  lemma ReadV2Frame(reader: Reader, versionCommand: byte, familyTransport: byte, addr: seq<byte>,
                    parseIpv6: string -> Option<Ipv6Octets>, rest: seq<byte>)
    requires reader.enabled && |addr| < 0x1_0000
    ensures ReadHeader(reader, V2Frame(versionCommand, familyTransport, addr) + rest, Peeked, parseIpv6)
         == match V2Address(Family(familyTransport), addr)
            case Ok(source) => Ok(Header(source, V2_FIXED_LENGTH + |addr|))
            case Err(e) => Err(e)
  {
    var stream := V2Frame(versionCommand, familyTransport, addr) + rest;
    assert stream[..12] == V2_SIGNATURE;
    assert stream[0] != V1_SIGNATURE[0];
    var header := stream[..V2_FIXED_LENGTH];
    assert header[13] == familyTransport;
    assert header[14] as nat * 0x100 + header[15] as nat == |addr|;
    assert stream[V2_FIXED_LENGTH..] == addr + rest;
    assert (addr + rest)[..|addr|] == addr;
  }

  /** A TCP over IPv4 header gives the source address and port, with any
      trailing TLV bytes in the block skipped. */
  lemma V2Ipv4RoundTrip(reader: Reader, versionCommand: byte, transport: nat,
                        src: Ipv4Octets, dst: Ipv4Octets, srcPort: u16, dstPort: u16, tlvs: seq<byte>,
                        parseIpv6: string -> Option<Ipv6Octets>, rest: seq<byte>)
    requires reader.enabled && transport < 16 && |tlvs| < 0x1_0000 - 12
    ensures var addr := src + dst + U16ToBe(srcPort) + U16ToBe(dstPort) + tlvs;
            ReadHeader(reader, V2Frame(versionCommand, AF_INET + transport, addr) + rest, Peeked, parseIpv6)
            == Ok(Header(Some(SocketAddr(V4(src), srcPort)), 28 + |tlvs|))
  {
    hide *;
    var addr := src + dst + U16ToBe(srcPort) + U16ToBe(dstPort) + tlvs;
    V2Ipv4Block(transport, src, dst, srcPort, dstPort, tlvs);
    ReadV2Frame(reader, versionCommand, AF_INET + transport, addr, parseIpv6, rest);
  }

  lemma V2Ipv4Block(transport: nat, src: Ipv4Octets, dst: Ipv4Octets, srcPort: u16, dstPort: u16, tlvs: seq<byte>)
    requires transport < 16 && |tlvs| < 0x1_0000 - 12
    ensures var addr := src + dst + U16ToBe(srcPort) + U16ToBe(dstPort) + tlvs;
            V2_FIXED_LENGTH + |addr| == 28 + |tlvs| && AF_INET + transport < 0x100
            && V2Address(Family(AF_INET + transport), addr) == Ok(Some(SocketAddr(V4(src), srcPort)))
  {
    var addr := src + dst + U16ToBe(srcPort) + U16ToBe(dstPort) + tlvs;
    assert addr[..4] == src;
    assert addr[8..10] == U16ToBe(srcPort);
  }

  /** A TCP over IPv6 header gives the source address and port. */
  lemma V2Ipv6RoundTrip(reader: Reader, versionCommand: byte, transport: nat,
                        src: Ipv6Octets, dst: Ipv6Octets, srcPort: u16, dstPort: u16, tlvs: seq<byte>,
                        parseIpv6: string -> Option<Ipv6Octets>, rest: seq<byte>)
    requires reader.enabled && transport < 16 && |tlvs| < 0x1_0000 - 36
    ensures var addr := src + dst + U16ToBe(srcPort) + U16ToBe(dstPort) + tlvs;
            ReadHeader(reader, V2Frame(versionCommand, AF_INET6 + transport, addr) + rest, Peeked, parseIpv6)
            == Ok(Header(Some(SocketAddr(V6(src), srcPort)), 52 + |tlvs|))
  {
    hide *;
    var addr := src + dst + U16ToBe(srcPort) + U16ToBe(dstPort) + tlvs;
    V2Ipv6Block(transport, src, dst, srcPort, dstPort, tlvs);
    ReadV2Frame(reader, versionCommand, AF_INET6 + transport, addr, parseIpv6, rest);
  }

  lemma V2Ipv6Block(transport: nat, src: Ipv6Octets, dst: Ipv6Octets, srcPort: u16, dstPort: u16, tlvs: seq<byte>)
    requires transport < 16 && |tlvs| < 0x1_0000 - 36
    ensures var addr := src + dst + U16ToBe(srcPort) + U16ToBe(dstPort) + tlvs;
            V2_FIXED_LENGTH + |addr| == 52 + |tlvs| && AF_INET6 + transport < 0x100
            && V2Address(Family(AF_INET6 + transport), addr) == Ok(Some(SocketAddr(V6(src), srcPort)))
  {
    var addr := src + dst + U16ToBe(srcPort) + U16ToBe(dstPort) + tlvs;
    assert addr[..16] == src;
    assert addr[32..34] == U16ToBe(srcPort);
  }

  /** Unix-socket and unspecified families are consumed with their block and
      give no address. */
  lemma V2NoAddress(reader: Reader, versionCommand: byte, familyTransport: byte, addr: seq<byte>,
                    parseIpv6: string -> Option<Ipv6Octets>, rest: seq<byte>)
    requires reader.enabled && |addr| < 0x1_0000
    requires familyTransport < 0x10 || 0x30 <= familyTransport < 0x40
    ensures ReadHeader(reader, V2Frame(versionCommand, familyTransport, addr) + rest, Peeked, parseIpv6)
         == Ok(Header(None, V2_FIXED_LENGTH + |addr|))
  {
    ReadV2Frame(reader, versionCommand, familyTransport, addr, parseIpv6, rest);
  }
}
