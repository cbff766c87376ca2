/** UTF-8, as Rust's `str::as_bytes` produces it and `String::from_utf8`
    accepts it: shortest-form sequences of one to four bytes, no encoded
    surrogates, nothing above U+10FFFF. */
module Utf8 {
  import opened Bytes
  import opened Wrappers

  predicate IsContinuation(b: byte) { 0x80 <= b < 0xC0 }

  /** The UTF-8 bytes of one scalar value: its bits cut into six-bit groups,
      the leading byte marking how many groups follow. */
  function EncodeChar(c: char): (r: seq<byte>)
    ensures 1 <= |r| <= 4
    ensures (c as int < 0x80) <==> |r| == 1
  {
    var n := c as int;
    var q1, r1 := n / 64, n % 64;
    var q2, r2 := q1 / 64, q1 % 64;
    var q3, r3 := q2 / 64, q2 % 64;
    if n < 0x80 then [n]
    else if n < 0x800 then [0xC0 + q1, 0x80 + r1]
    else if n < 0x1_0000 then [0xE0 + q2, 0x80 + r2, 0x80 + r1]
    else [0xF0 + q3, 0x80 + r3, 0x80 + r2, 0x80 + r1]
  }

  /** `str::as_bytes`: the UTF-8 encoding of a whole string. */
  function Encode(s: string): (r: seq<byte>)
    ensures |r| >= |s|
    ensures |s| == 0 <==> |r| == 0
  {
    if |s| == 0 then [] else EncodeChar(s[0]) + Encode(s[1..])
  }

  /** The first scalar value of `bs` and how many bytes it occupies, or
      None when `bs` does not start with a well-formed sequence. */
  function DecodeChar(bs: seq<byte>): (r: Option<(char, nat)>)
    requires |bs| > 0
    ensures r.Some? ==> 1 <= r.value.1 <= |bs| && r.value.1 <= 4
  {
    var b0: int := bs[0];
    if b0 < 0x80 then Some((b0 as char, 1))
    else if 0xC2 <= b0 <= 0xDF then
      if |bs| < 2 || !IsContinuation(bs[1]) then None
      else Some((((b0 - 0xC0) * 64 + (bs[1] as int - 0x80)) as char, 2))
    else if 0xE0 <= b0 <= 0xEF then
      var lo := if b0 == 0xE0 then 0xA0 else 0x80;
      var hi := if b0 == 0xED then 0x9F else 0xBF;
      if |bs| < 3 || !(lo <= bs[1] <= hi) || !IsContinuation(bs[2]) then None
      else
        var v: int := ((b0 - 0xE0) * 64 + (bs[1] as int - 0x80)) * 64 + (bs[2] as int - 0x80);
        assert 0x800 <= v < 0xD800 || 0xE000 <= v < 0x1_0000;
        Some((v as char, 3))
    else if 0xF0 <= b0 <= 0xF4 then
      var lo := if b0 == 0xF0 then 0x90 else 0x80;
      var hi := if b0 == 0xF4 then 0x8F else 0xBF;
      if |bs| < 4 || !(lo <= bs[1] <= hi) || !IsContinuation(bs[2]) || !IsContinuation(bs[3]) then None
      else
        var v: int := (((b0 - 0xF0) * 64 + (bs[1] as int - 0x80)) * 64 + (bs[2] as int - 0x80)) * 64 + (bs[3] as int - 0x80);
        assert 0x1_0000 <= v < 0x11_0000;
        Some((v as char, 4))
    else None
  }

  /** `String::from_utf8`: the string `bs` encodes, or None when it is not
      well-formed UTF-8. */
  function Decode(bs: seq<byte>): (r: Option<string>)
    ensures r.Some? ==> |r.value| <= |bs|
    decreases |bs|, 1
  {
    if |bs| == 0 then Some([]) else DecodeFirst(bs)
  }

  /** A non-empty input: its first character, then the rest. */
  function DecodeFirst(bs: seq<byte>): (r: Option<string>)
    requires |bs| > 0
    ensures r.Some? ==> |r.value| <= |bs|
    decreases |bs|, 0
  {
    match DecodeChar(bs)
    case None => None
    case Some((c, n)) =>
      match Decode(bs[n..])
      case None => None
      case Some(rest) => Some([c] + rest)
  }

  lemma DecodeEncodeChar(c: char, rest: seq<byte>)
    ensures DecodeChar(EncodeChar(c) + rest) == Some((c, |EncodeChar(c)|))
  {
    var n := c as int;
    var bs := EncodeChar(c) + rest;
    assert bs[..|EncodeChar(c)|] == EncodeChar(c);
    if n < 0x80 {
    } else if n < 0x800 {
      assert bs[0] == 0xC0 + n / 64 && bs[1] == 0x80 + n % 64;
    } else if n < 0x1_0000 {
      DecodeEncode3(n, bs);
    } else {
      DecodeEncode4(n, bs);
    }
  }

  lemma DecodeEncode3(n: int, bs: seq<byte>)
    requires 0x800 <= n < 0xD800 || 0xE000 <= n < 0x1_0000
    requires |bs| >= 3 && bs[..3] == EncodeChar(n as char)
    ensures DecodeChar(bs) == Some((n as char, 3))
  {
    var q1, r1 := n / 64, n % 64;
    var q2, r2 := q1 / 64, q1 % 64;
    assert bs[0] == bs[..3][0] == 0xE0 + q2;
    assert bs[1] == bs[..3][1] == 0x80 + r2;
    assert bs[2] == bs[..3][2] == 0x80 + r1;
  }

  lemma DecodeEncode4(n: int, bs: seq<byte>)
    requires 0x1_0000 <= n < 0x11_0000
    requires |bs| >= 4 && bs[..4] == EncodeChar(n as char)
    ensures DecodeChar(bs) == Some((n as char, 4))
  {
    var q1, r1 := n / 64, n % 64;
    var q2, r2 := q1 / 64, q1 % 64;
    var q3, r3 := q2 / 64, q2 % 64;
    assert bs[0] == bs[..4][0] == 0xF0 + q3;
    assert bs[1] == bs[..4][1] == 0x80 + r3;
    assert bs[2] == bs[..4][2] == 0x80 + r2;
    assert bs[3] == bs[..4][3] == 0x80 + r1;
  }

  /** Decoding undoes encoding: every string survives the round trip. */
  lemma {:induction false} DecodeEncode(s: string)
    ensures Decode(Encode(s)) == Some(s)
  {
    if |s| > 0 {
      var e := EncodeChar(s[0]);
      DecodeEncodeChar(s[0], Encode(s[1..]));
      assert Encode(s)[|e|..] == Encode(s[1..]);
      DecodeEncode(s[1..]);
      assert s == [s[0]] + s[1..];
    }
  }

  /** ASCII text encodes byte for byte. */
  lemma {:induction false} EncodeAscii(s: string)
    requires forall i :: 0 <= i < |s| ==> s[i] as int < 0x80
    ensures |Encode(s)| == |s|
    ensures forall i :: 0 <= i < |s| ==> Encode(s)[i] == s[i] as int
  {
    if |s| > 0 {
      EncodeAscii(s[1..]);
      assert Encode(s) == [s[0] as int] + Encode(s[1..]);
    }
  }

  lemma EncodeTwo(b0: int, b1: int)
    requires 0xC2 <= b0 <= 0xDF && 0x80 <= b1 < 0xC0
    ensures EncodeChar(((b0 - 0xC0) * 64 + (b1 - 0x80)) as char) == [b0, b1]
  {
    var v := (b0 - 0xC0) * 64 + (b1 - 0x80);
    assert v / 64 == b0 - 0xC0 && v % 64 == b1 - 0x80;
  }

  lemma EncodeThree(b0: int, b1: int, b2: int)
    requires 0xE0 <= b0 <= 0xEF && 0x80 <= b1 < 0xC0 && 0x80 <= b2 < 0xC0
    requires b0 == 0xE0 ==> b1 >= 0xA0
    requires b0 == 0xED ==> b1 <= 0x9F
    ensures var v := ((b0 - 0xE0) * 64 + (b1 - 0x80)) * 64 + (b2 - 0x80);
            (0x800 <= v < 0xD800 || 0xE000 <= v < 0x1_0000)
            && EncodeChar(v as char) == [b0, b1, b2]
  {
    var w := (b0 - 0xE0) * 64 + (b1 - 0x80);
    var v := w * 64 + (b2 - 0x80);
    assert v / 64 == w && v % 64 == b2 - 0x80;
    assert w / 64 == b0 - 0xE0 && w % 64 == b1 - 0x80;
  }

  lemma EncodeFour(b0: int, b1: int, b2: int, b3: int)
    requires 0xF0 <= b0 <= 0xF4 && 0x80 <= b1 < 0xC0 && 0x80 <= b2 < 0xC0 && 0x80 <= b3 < 0xC0
    requires b0 == 0xF0 ==> b1 >= 0x90
    requires b0 == 0xF4 ==> b1 <= 0x8F
    ensures var v := (((b0 - 0xF0) * 64 + (b1 - 0x80)) * 64 + (b2 - 0x80)) * 64 + (b3 - 0x80);
            0x1_0000 <= v < 0x11_0000 && EncodeChar(v as char) == [b0, b1, b2, b3]
  {
    var u := (b0 - 0xF0) * 64 + (b1 - 0x80);
    var w := u * 64 + (b2 - 0x80);
    var v := w * 64 + (b3 - 0x80);
    assert v / 64 == w && v % 64 == b3 - 0x80;
    assert w / 64 == u && w % 64 == b2 - 0x80;
    assert u / 64 == b0 - 0xF0 && u % 64 == b1 - 0x80;
  }

  lemma EncodeDecodeChar(bs: seq<byte>)
    requires |bs| > 0 && DecodeChar(bs).Some?
    ensures EncodeChar(DecodeChar(bs).value.0) == bs[..DecodeChar(bs).value.1]
  {
    var b0: int := bs[0];
    if 0xC2 <= b0 <= 0xDF {
      EncodeTwo(b0, bs[1]);
      assert bs[..2] == [bs[0], bs[1]];
    } else if 0xE0 <= b0 <= 0xEF {
      EncodeThree(b0, bs[1], bs[2]);
      assert bs[..3] == [bs[0], bs[1], bs[2]];
    } else if 0xF0 <= b0 <= 0xF4 {
      EncodeFour(b0, bs[1], bs[2], bs[3]);
      assert bs[..4] == [bs[0], bs[1], bs[2], bs[3]];
    }
  }

  /** Every byte string the decoder accepts is the encoding of what it
      decodes to: UTF-8 has exactly one spelling per string. */
  lemma {:induction false} EncodeDecode(bs: seq<byte>)
    requires Decode(bs).Some?
    ensures Encode(Decode(bs).value) == bs
    decreases |bs|
  {
    if |bs| > 0 {
      var (c, n) := DecodeChar(bs).value;
      EncodeDecodeChar(bs);
      EncodeDecode(bs[n..]);
      var s := Decode(bs).value;
      assert s[0] == c && s[1..] == Decode(bs[n..]).value;
      assert bs == bs[..n] + bs[n..];
    }
  }
}
