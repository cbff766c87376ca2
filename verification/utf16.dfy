/** UTF-16 as used by the pre-Netty (legacy) Minecraft packets: Rust's
    `str::encode_utf16` and `String::from_utf16`, and the big-endian byte
    layout of the code units on the wire. */
module Utf16 {
  import opened Bytes
  import opened Wrappers

  predicate IsHighSurrogate(u: u16) { 0xD800 <= u < 0xDC00 }
  predicate IsLowSurrogate(u: u16) { 0xDC00 <= u < 0xE000 }

  /** The code units of one scalar value: itself below U+10000, otherwise a
      high/low surrogate pair carrying ten bits each. */
  function EncodeChar(c: char): (r: seq<u16>)
    ensures |r| == 1 || |r| == 2
    ensures |r| == 1 <==> c as int < 0x1_0000
    ensures |r| == 1 ==> !IsHighSurrogate(r[0]) && !IsLowSurrogate(r[0])
    ensures |r| == 2 ==> IsHighSurrogate(r[0]) && IsLowSurrogate(r[1])
  {
    var n := c as int;
    if n < 0x1_0000 then [n]
    else
      var m := n - 0x1_0000;
      [0xD800 + m / 1024, 0xDC00 + m % 1024]
  }

  /** `str::encode_utf16` */
  function Encode(s: string): (r: seq<u16>)
    ensures |s| <= |r| <= 2 * |s|
  {
    if |s| == 0 then [] else EncodeChar(s[0]) + Encode(s[1..])
  }

  /** `String::from_utf16`: None when a surrogate is unpaired. */
  function Decode(units: seq<u16>): (r: Option<string>)
    ensures r.Some? ==> |r.value| <= |units|
    decreases |units|
  {
    if |units| == 0 then Some([])
    else
      var u: int := units[0];
      if !IsHighSurrogate(u) && !IsLowSurrogate(u) then
        match Decode(units[1..])
        case None => None
        case Some(rest) => Some([u as char] + rest)
      else if IsHighSurrogate(u) && |units| >= 2 && IsLowSurrogate(units[1]) then
        var n := 0x1_0000 + (u - 0xD800) * 1024 + (units[1] as int - 0xDC00);
        match Decode(units[2..])
        case None => None
        case Some(rest) => Some([n as char] + rest)
      else None
  }

  lemma {:induction false} DecodeEncode(s: string)
    ensures Decode(Encode(s)) == Some(s)
  {
    if |s| > 0 {
      var e := EncodeChar(s[0]);
      var units := Encode(s);
      assert units[|e|..] == Encode(s[1..]);
      DecodeEncode(s[1..]);
      if |e| == 2 {
        var m := s[0] as int - 0x1_0000;
        assert units[0] == 0xD800 + m / 1024 && units[1] == 0xDC00 + m % 1024;
      }
      assert s == [s[0]] + s[1..];
    }
  }

  /** Every unit sequence the decoder accepts is the encoding of its result. */
  lemma {:induction false} EncodeDecode(units: seq<u16>)
    requires Decode(units).Some?
    ensures Encode(Decode(units).value) == units
    decreases |units|
  {
    hide *;
    if |units| == 0 {
      EmptyDecodes(units);
    } else {
      var u: int := units[0];
      var s := Decode(units).value;
      DecodeStep(units);
      EncodeCons(s);
      if !IsHighSurrogate(u) && !IsLowSurrogate(u) {
        EncodeDecode(units[1..]);
        assert units == [u] + units[1..];
      } else {
        EncodeDecode(units[2..]);
        assert units == [u, units[1]] + units[2..];
      }
    }
  }

  lemma EmptyDecodes(units: seq<u16>)
    requires |units| == 0
    ensures Decode(units) == Some([]) && Encode([]) == units
  {
  }

  lemma EncodeCons(s: string)
    requires |s| > 0
    ensures Encode(s) == EncodeChar(s[0]) + Encode(s[1..])
  {
  }

  /** What the decoder's first step takes from a sequence it accepts: one
      unit that is no surrogate, or a high/low pair, encoding its first
      character. */
  lemma DecodeStep(units: seq<u16>)
    requires |units| > 0 && Decode(units).Some?
    ensures var s := Decode(units).value;
            |s| > 0
            && (!IsHighSurrogate(units[0]) && !IsLowSurrogate(units[0]) ==>
                  Decode(units[1..]).Some? && s[1..] == Decode(units[1..]).value
                  && EncodeChar(s[0]) == [units[0]])
            && (IsHighSurrogate(units[0]) || IsLowSurrogate(units[0]) ==>
                  |units| >= 2 && Decode(units[2..]).Some? && s[1..] == Decode(units[2..]).value
                  && EncodeChar(s[0]) == [units[0], units[1]])
  {
    var u: int := units[0];
    if IsHighSurrogate(u) || IsLowSurrogate(u) {
      PairStep(units);
    }
  }

  lemma PairStep(units: seq<u16>)
    requires |units| > 0 && Decode(units).Some?
    requires IsHighSurrogate(units[0]) || IsLowSurrogate(units[0])
    ensures |units| >= 2 && IsHighSurrogate(units[0]) && IsLowSurrogate(units[1])
    ensures var n := 0x1_0000 + (units[0] as int - 0xD800) * 1024 + (units[1] as int - 0xDC00);
            Decode(units[2..]).Some? && Decode(units) == Some([n as char] + Decode(units[2..]).value)
            && EncodeChar(n as char) == [units[0], units[1]]
  {
    PairEncode(units[0] as int - 0xD800, units[1] as int - 0xDC00);
  }

  /** A high surrogate carries the upper ten bits of the offset above
      U+10000, the low surrogate the lower ten. */
  lemma PairEncode(hi: int, lo: int)
    requires 0 <= hi < 0x400 && 0 <= lo < 0x400
    ensures 0x1_0000 + hi * 0x400 + lo < 0x11_0000
    ensures EncodeChar((0x1_0000 + hi * 0x400 + lo) as char) == [0xD800 + hi, 0xDC00 + lo]
  {
    var m := hi * 0x400 + lo;
    assert m / 0x400 == hi && m % 0x400 == lo;
  }

  /** The big-endian bytes of a sequence of code units. */
  function ToBeBytes(units: seq<u16>): (r: seq<byte>)
    ensures |r| == 2 * |units|
  {
    if |units| == 0 then [] else U16ToBe(units[0]) + ToBeBytes(units[1..])
  }

  /** Pairs of big-endian bytes read back as code units. */
  function FromBeBytes(bs: seq<byte>): (r: seq<u16>)
    requires |bs| % 2 == 0
    ensures 2 * |r| == |bs|
  {
    if |bs| == 0 then [] else [bs[0] as int * 0x100 + bs[1] as int] + FromBeBytes(bs[2..])
  }

  lemma {:induction false} FromToBeBytes(units: seq<u16>)
    ensures FromBeBytes(ToBeBytes(units)) == units
  {
    if |units| > 0 {
      var bs := ToBeBytes(units);
      assert bs[2..] == ToBeBytes(units[1..]);
      FromToBeBytes(units[1..]);
    }
  }

  lemma {:induction false} ToFromBeBytes(bs: seq<byte>)
    requires |bs| % 2 == 0
    ensures ToBeBytes(FromBeBytes(bs)) == bs
  {
    if |bs| > 0 {
      ToFromBeBytes(bs[2..]);
      assert FromBeBytes(bs)[1..] == FromBeBytes(bs[2..]);
      assert bs == bs[..2] + bs[2..];
    }
  }
}
