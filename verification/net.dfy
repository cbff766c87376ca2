/** Socket addresses as the proxy reads and writes them: the `IpAddr`
    values of `std::net`, the dotted-quad text of an IPv4 address and the
    `ip:port` text of an IPv4 socket address. */
module Net {
  import opened Bytes
  import opened Wrappers
  import opened Text

  type Ipv4Octets = s: seq<byte> | |s| == 4 witness [0, 0, 0, 0]
  type Ipv6Octets = s: seq<byte> | |s| == 16 witness seq(16, i => 0)

  datatype IpAddr = V4(v4: Ipv4Octets) | V6(v6: Ipv6Octets)

  datatype SocketAddr = SocketAddr(ip: IpAddr, port: u16)

  /** One dotted-quad field as `Ipv4Addr::from_str` accepts it: one to three
      ASCII digits, no leading zero, at most 255. */
  function ParseOctet(t: string): (r: Option<byte>)
    ensures r.Some? ==> IsCanonicalNumeral(t) && |t| <= 3
  {
    if 1 <= |t| <= 3 && AllAsciiDigits(t) && (|t| == 1 || t[0] != '0')
       && DigitsValue(t) <= 0xFF
    then Some(DigitsValue(t))
    else None
  }

  /** `Ipv4Addr::from_str`: exactly four fields separated by `.`. */
  function ParseIpv4(s: string): (r: Option<Ipv4Octets>)
    ensures r.Some? ==> |Split(s, ".")| == 4
  {
    var parts := Split(s, ".");
    if |parts| != 4 then None
    else
      var a :- ParseOctet(parts[0]);
      var b :- ParseOctet(parts[1]);
      var c :- ParseOctet(parts[2]);
      var d :- ParseOctet(parts[3]);
      Some([a, b, c, d])
  }

  /** The four decimal fields of an address, before they are joined. */
  function OctetNumerals(o: Ipv4Octets): (r: seq<string>)
    ensures |r| == 4
    ensures forall k :: 0 <= k < 4 ==> IsCanonicalNumeral(r[k])
    ensures forall k :: 0 <= k < 4 ==> '.' !in r[k] && ':' !in r[k] && '/' !in r[k] && '\0' !in r[k]
  {
    var r := [NatToString(o[0]), NatToString(o[1]), NatToString(o[2]), NatToString(o[3])];
    forall k | 0 <= k < 4 ensures IsCanonicalNumeral(r[k]) {
      NatToStringCanonical(o[k]);
    }
    r
  }

  /** `Display` for `Ipv4Addr`: the decimal octets joined by `.`. */
  function FormatIpv4(o: Ipv4Octets): (r: string)
    ensures ':' !in r && '/' !in r && '\0' !in r
  {
    var parts := OctetNumerals(o);
    NoCharInJoin(parts, ".", ':');
    NoCharInJoin(parts, ".", '/');
    NoCharInJoin(parts, ".", '\0');
    Join(parts, ".")
  }

  /** `Display` for an IPv4 `SocketAddr`: the address, `:`, the port. */
  function FormatSocketV4(o: Ipv4Octets, port: u16): (r: string)
    ensures '/' !in r && '\0' !in r
    ensures Split(r, ":") == [FormatIpv4(o), NatToString(port)]
  {
    var r := FormatIpv4(o) + ":" + NatToString(port);
    assert r == Join([FormatIpv4(o), NatToString(port)], ":");
    SplitJoin([FormatIpv4(o), NatToString(port)], ":");
    r
  }

  /** The dotted-quad text is at most 15 characters, all digits and dots. */
  lemma FormatIpv4Shape(o: Ipv4Octets)
    ensures |FormatIpv4(o)| <= 15
    ensures forall i :: 0 <= i < |FormatIpv4(o)| ==> IsAsciiDigit(FormatIpv4(o)[i]) || FormatIpv4(o)[i] == '.'
  {
    var parts := OctetNumerals(o);
    DigitsAndDots(parts);
    JoinCons(parts, ".");
    JoinThree(parts[1..], ".");
    NatToStringLength(o[0]);
    NatToStringLength(o[1]);
    NatToStringLength(o[2]);
    NatToStringLength(o[3]);
  }

  lemma {:induction false} DigitsAndDots(parts: seq<string>)
    requires |parts| >= 1
    requires forall k :: 0 <= k < |parts| ==> AllAsciiDigits(parts[k])
    ensures forall i :: 0 <= i < |Join(parts, ".")| ==> IsAsciiDigit(Join(parts, ".")[i]) || Join(parts, ".")[i] == '.'
  {
    if |parts| > 1 {
      DigitsAndDots(parts[1..]);
      var rest := Join(parts[1..], ".");
      var r := Join(parts, ".");
      assert r == parts[0] + "." + rest;
      forall i | 0 <= i < |r| ensures IsAsciiDigit(r[i]) || r[i] == '.' {
        if i < |parts[0]| {
          assert r[i] == parts[0][i] && AllAsciiDigits(parts[0]);
          assert IsAsciiDigit(r[i]);
        } else if i > |parts[0]| {
          assert r[i] == rest[i - |parts[0]| - 1];
          assert IsAsciiDigit(rest[i - |parts[0]| - 1]) || rest[i - |parts[0]| - 1] == '.';
        } else {
          assert r[i] == '.';
        }
      }
    }
  }

  lemma {:induction false} NoCharInJoin(parts: seq<string>, sep: string, c: char)
    requires |parts| >= 1 && c !in sep
    requires forall k :: 0 <= k < |parts| ==> c !in parts[k]
    ensures c !in Join(parts, sep)
  {
    if |parts| > 1 {
      NoCharInJoin(parts[1..], sep, c);
    }
  }

  lemma ParseOctetFormat(b: byte)
    ensures ParseOctet(NatToString(b)) == Some(b)
  {
    NatToStringCanonical(b);
    NatToStringLength(b);
  }

  lemma ParseOctetCanonical(t: string, b: byte)
    requires ParseOctet(t) == Some(b)
    ensures NatToString(b) == t
  {
    CanonicalNumeralValue(t);
  }

  /** Every address reads back from the text `Display` gives it. */
  lemma ParseFormatIpv4(o: Ipv4Octets)
    ensures ParseIpv4(FormatIpv4(o)) == Some(o)
  {
    var parts := OctetNumerals(o);
    SplitJoin(parts, ".");
    ParseOctetFormat(o[0]);
    ParseOctetFormat(o[1]);
    ParseOctetFormat(o[2]);
    ParseOctetFormat(o[3]);
    assert Split(FormatIpv4(o), ".") == parts;
    assert [o[0], o[1], o[2], o[3]] == o;
  }

  /** The accepted text is exactly the canonical one: no leading zeros,
      no sign, nothing else parses to the same address. */
  lemma FormatParseIpv4(s: string)
    requires ParseIpv4(s).Some?
    ensures FormatIpv4(ParseIpv4(s).value) == s
  {
    var o := ParseIpv4(s).value;
    var parts := Split(s, ".");
    forall k | 0 <= k < 4 ensures NatToString(o[k]) == parts[k] {
      ParseOctetCanonical(parts[k], o[k]);
    }
    assert OctetNumerals(o) == parts;
    JoinSplit(s, ".");
  }
}
