/** Protocol strings and resource identifiers
    (crates/infrarust/src/protocol/types/strings.rs).  A string travels as a
    VarInt byte count followed by its UTF-8 bytes; an identifier is such a
    string of the form `namespace:path`. */
module Strings {
  import opened Bytes
  import opened Wrappers
  import opened Io
  import VarInt
  import Arrays
  import Utf8
  import opened Text

  /** `ProtocolString::write_to` */
  function WriteString(s: string): (r: Result<seq<byte>, IoError>)
    ensures |Utf8.Encode(s)| < 0x8000_0000 ==> (r.Ok? <==> |Utf8.Encode(s)| < VarInt.THREE_BYTE_LIMIT)
    ensures r.Ok? ==> r.value == VarInt.ToBytes(Arrays.LengthPrefix(|Utf8.Encode(s)|)) + Utf8.Encode(s)
  {
    var bytes := Utf8.Encode(s);
    var prefix :- VarInt.Write(Arrays.LengthPrefix(|bytes|));
    Ok(prefix + bytes)
  }

  /** `ProtocolString::read_from` */
  function ReadString(input: seq<byte>): (r: Result<Decoded<string>, IoError>)
    ensures r.Ok? ==> r.value.size <= |input|
  {
    var len :- VarInt.Read(input);
    if len.value < 0 then Err(InvalidData("String length cannot be negative"))
    else
      var buffer :- ReadExact(input[len.size..], len.value);
      match Utf8.Decode(buffer)
      case None => Err(InvalidData("invalid utf-8 sequence"))
      case Some(s) => Ok(Decoded(s, len.size + len.value))
  }

  lemma ReadStringOf(input: seq<byte>, prefixSize: nat, bytes: seq<byte>, s: string)
    requires |bytes| < 0x8000_0000 && prefixSize + |bytes| <= |input|
    requires VarInt.Read(input) == Ok(Decoded(|bytes| as i32, prefixSize))
    requires input[prefixSize..prefixSize + |bytes|] == bytes
    requires Utf8.Decode(bytes) == Some(s)
    ensures ReadString(input) == Ok(Decoded(s, prefixSize + |bytes|))
  {
    assert input[prefixSize..][..|bytes|] == bytes;
  }

  /** Every string whose UTF-8 form fits the VarInt prefix reads back
      unchanged, and the count read equals the count written. */
  lemma StringRoundTrip(s: string, rest: seq<byte>)
    requires |Utf8.Encode(s)| < VarInt.THREE_BYTE_LIMIT
    ensures ReadString(WriteString(s).value + rest)
         == Ok(Decoded(s, |WriteString(s).value|))
  {
    hide *;
    VarInt.ThreeByteLimit();
    var bytes := Utf8.Encode(s);
    var prefix := VarInt.ToBytes(|bytes|);
    assert WriteString(s).value + rest == prefix + bytes + rest;
    Arrays.FramedPayload(bytes, rest);
    Utf8.DecodeEncode(s);
    ReadStringOf(prefix + bytes + rest, |prefix|, bytes, s);
  }

  lemma StringRejectsNegativeLength(input: seq<byte>)
    requires VarInt.Read(input).Ok? && VarInt.Read(input).value.value < 0
    ensures ReadString(input) == Err(InvalidData("String length cannot be negative"))
  {
  }

  /** A payload that is not well-formed UTF-8 is refused as InvalidData. */
  lemma StringRejectsInvalidUtf8(input: seq<byte>)
    requires VarInt.Read(input).Ok?
    requires var len := VarInt.Read(input).value;
             0 <= len.value && len.size + len.value <= |input|
             && Utf8.Decode(input[len.size..len.size + len.value]).None?
    ensures ReadString(input).Err? && ReadString(input).error.InvalidData?
  {
    var len := VarInt.Read(input).value;
    assert input[len.size..][..len.value] == input[len.size..len.size + len.value];
  }

  /** Whatever `read_from` accepts is exactly what `write_to` would have
      produced for the decoded string, prefix and payload alike. */
  lemma ReadStringPayloadIsEncoding(input: seq<byte>)
    requires ReadString(input).Ok?
    ensures var d := VarInt.Read(input).value;
            input[d.size..ReadString(input).value.size] == Utf8.Encode(ReadString(input).value.value)
  {
    var d := VarInt.Read(input).value;
    var buffer := input[d.size..][..d.value];
    assert buffer == input[d.size..d.size + d.value];
    Utf8.EncodeDecode(buffer);
  }

  predicate IsNamespaceChar(c: char) {
    ('a' <= c <= 'z') || IsAsciiDigit(c) || c == '.' || c == '-' || c == '_'
  }

  predicate IsPathChar(c: char) {
    IsNamespaceChar(c) || c == '/'
  }

  /** `Identifier::is_valid_namespace` */
  predicate IsValidNamespace(s: string) {
    |s| > 0 && forall i :: 0 <= i < |s| ==> IsNamespaceChar(s[i])
  }

  /** `Identifier::is_valid_path` */
  predicate IsValidPath(s: string) {
    |s| > 0 && forall i :: 0 <= i < |s| ==> IsPathChar(s[i])
  }

  /** The namespace and path an identifier string names: split at the
      first ':', or namespace "minecraft" when there is none. */
  function NamespaceAndPath(value: string): (r: (string, string))
    ensures ':' !in value ==> r == ("minecraft", value)
    ensures ':' in value ==> value == r.0 + ":" + r.1 && ':' !in r.0
  {
    match SplitOnce(value, ":")
    case Some((ns, p)) =>
      assert ':' !in ns by {
        if ':' in ns {
          var i :| 0 <= i < |ns| && ns[i] == ':';
          assert OccursAt(ns, ":", i);
        }
      }
      (ns, p)
    case None =>
      assert ':' !in value by {
        if ':' in value {
          var i :| 0 <= i < |value| && value[i] == ':';
          assert OccursAt(value, ":", i);
        }
      }
      ("minecraft", value)
  }

  predicate IsValidIdentifier(value: string) {
    var (ns, p) := NamespaceAndPath(value);
    IsValidNamespace(ns) && IsValidPath(p)
  }

  /** `Identifier::write_to`: the identifier's text as a protocol string. */
  function WriteIdentifier(value: string): (r: Result<seq<byte>, IoError>)
    ensures r == WriteString(value)
  {
    WriteString(value)
  }

  /** `Identifier::read_from`: a protocol string whose namespace and path
      are both valid. */
  function ReadIdentifier(input: seq<byte>): (r: Result<Decoded<string>, IoError>)
    ensures r.Ok? <==> ReadString(input).Ok? && IsValidIdentifier(ReadString(input).value.value)
    ensures r.Ok? ==> r == ReadString(input)
  {
    var d :- ReadString(input);
    if !IsValidIdentifier(d.value) then Err(InvalidData("Invalid Minecraft identifier format"))
    else Ok(d)
  }

  /** Without a ':' the namespace is "minecraft", which is itself valid,
      so only the path decides. */
  lemma DefaultNamespace(value: string)
    requires ':' !in value
    ensures NamespaceAndPath(value).0 == "minecraft"
    ensures IsValidIdentifier(value) <==> IsValidPath(value)
  {
    assert IsValidNamespace("minecraft");
  }

  /** A written identifier reads back exactly when its text is valid. */
  lemma IdentifierRoundTrip(value: string, rest: seq<byte>)
    requires |Utf8.Encode(value)| < VarInt.THREE_BYTE_LIMIT
    ensures ReadIdentifier(WriteIdentifier(value).value + rest).Ok? <==> IsValidIdentifier(value)
  {
    StringRoundTrip(value, rest);
  }

  /** With an explicit namespace, an identifier is valid exactly when
      both halves around its first ':' are. */
  lemma ExplicitNamespace(ns: string, path: string)
    requires ':' !in ns
    ensures NamespaceAndPath(ns + ":" + path) == (ns, path)
    ensures IsValidIdentifier(ns + ":" + path) <==> IsValidNamespace(ns) && IsValidPath(path)
  {
    SplitOnceAfterFreePrefix(ns, ":", path);
  }

  /** A namespace holding a character outside `[a-z0-9._-]`, such as an
      upper-case letter, is refused whatever the path. */
  lemma UppercaseIsInvalid(ns: string, path: string, i: nat)
    requires ':' !in ns && i < |ns| && 'A' <= ns[i] <= 'Z'
    ensures !IsValidIdentifier(ns + ":" + path)
  {
    ExplicitNamespace(ns, path);
    assert !IsNamespaceChar(ns[i]);
  }

  /** An empty namespace, as in `:no_namespace`, is refused. */
  lemma EmptyNamespaceIsInvalid(path: string)
    ensures !IsValidIdentifier(":" + path)
  {
    ExplicitNamespace("", path);
    assert "" + ":" + path == ":" + path;
  }
}
