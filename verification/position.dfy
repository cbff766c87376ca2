/** Block positions packed into one 64-bit integer
    (src/protocol/types/postion.rs): x in the top 26 bits, z in the next
    26, y in the low 12, each as two's complement. */
module Position {
  import opened Bytes
  import opened Wrappers
  import opened Io

  const P12: int := 0x1000
  const P26: int := 0x400_0000
  const P38: int := 0x40_0000_0000
  const P52: int := 0x10_0000_0000_0000

  datatype Position = Position(x: i32, y: i16, z: i32)

  /** The coordinates the packed form can carry: 26-bit x and z, 12-bit y. */
  predicate InRange(p: Position) {
    -P26 / 2 <= p.x < P26 / 2 && -P12 / 2 <= p.y < P12 / 2 && -P26 / 2 <= p.z < P26 / 2
  }

  /** `(v << n)` on an `i64`, with `factor` = 2^n: the bits shifted past
      bit 63 are lost. */
  function Shl(v: i64, factor: int): (r: i64)
    requires factor > 0
  {
    AsI64((AsU64(v) * factor) % TWO_64)
  }

  /** `(v >> n)` on an `i64`, with `factor` = 2^n: an arithmetic shift, rounding towards
      negative infinity, which Dafny's division by a positive divisor does. */
  function Sar(v: i64, factor: int): (r: i64)
    requires factor > 0
  {
    v / factor
  }

  /** `Position::encode`: the three masked fields ORed into place. */
  function Encode(p: Position): (r: i64)
    ensures AsU64(r) / P38 == p.x % P26
    ensures (AsU64(r) / P12) % P26 == p.z % P26
    ensures AsU64(r) % P12 == p.y % P12
  {
    var u := (p.x % P26) * P38 + (p.z % P26) * P12 + p.y % P12;
    FieldsOfPacked(p.x % P26, p.z % P26, p.y % P12);
    AsI64(u)
  }

  lemma FieldsOfPacked(a: nat, b: nat, c: nat)
    requires a < P26 && b < P26 && c < P12
    ensures var u := a * P38 + b * P12 + c;
            u < TWO_64 && u / P38 == a && (u / P12) % P26 == b && u % P12 == c
  {
    var u := a * P38 + b * P12 + c;
    assert b * P12 + c < P38;
    assert u / P12 == a * P26 + b;
  }

  /** `Position::decode`: arithmetic shifts recover each field with its
      sign.  Each shift leaves a value narrow enough for the field, so the
      casts `as i32` and `as i16` never cut bits off. */
  function Decode(value: i64): (p: Position)
    ensures InRange(p)
  {
    var x := Sar(value, P38);
    var y := Sar(Shl(value, P52), P52);
    var z := Sar(Shl(value, P26), P38);
    SarBounds(value, P38);
    SarBounds(Shl(value, P52), P52);
    SarBounds(Shl(value, P26), P38);
    Position(x, y, z)
  }

  /** `v >> n` on an `i64`, with `factor` = 2^n, is a (64 - n)-bit
      two's-complement value. */
  lemma SarBounds(v: i64, factor: int)
    requires 0 < factor <= 0x8000_0000_0000_0000 && 0x8000_0000_0000_0000 % factor == 0
    ensures -(0x8000_0000_0000_0000 / factor) <= Sar(v, factor) < 0x8000_0000_0000_0000 / factor
  {
    var h := 0x8000_0000_0000_0000 / factor;
    assert h * factor == 0x8000_0000_0000_0000;
    assert (-h) * factor <= v < h * factor;
    DivWithin(v, factor, -h, h);
  }

  /** Division by a positive divisor keeps a bracket of multiples. */
  lemma DivWithin(v: int, d: int, lo: int, hi: int)
    requires d > 0 && lo * d <= v < hi * d
    ensures lo <= v / d < hi
  {
    var q := v / d;
    assert v == q * d + v % d && 0 <= v % d < d;
    assert (q + 1) * d == q * d + d;
    MulOrder(lo, q + 1, d);
    MulOrder(q, hi, d);
  }

  /** Multiplying by a positive number keeps the order. */
  lemma MulOrder(a: int, b: int, d: int)
    requires d > 0
    ensures a < b <==> a * d < b * d
  {
    assert b * d - a * d == (b - a) * d;
  }

  /** Every in-range position survives `decode(encode(p))`. */
  lemma DecodeEncode(p: Position)
    requires InRange(p)
    ensures Decode(Encode(p)) == p
  {
    var a, b, c := p.x % P26, p.z % P26, p.y % P12;
    var u := a * P38 + b * P12 + c;
    FieldsOfPacked(a, b, c);
    var v := Encode(p);
    assert AsU64(v) == u;
    DecodeX(p.x, a, b * P12 + c);
    DecodeY(p.y, c, a * P26 + b);
    DecodeZ(p.z, b, a, c);
  }

  lemma DecodeX(x: int, a: nat, low: nat)
    requires -P26 / 2 <= x < P26 / 2 && a == x % P26 && low < P38
    ensures Sar(AsI64(a * P38 + low), P38) == x
  {
    var u := a * P38 + low;
    if x < 0 {
      assert a == x + P26;
      assert AsI64(u) == u - TWO_64;
      assert u - TWO_64 == x * P38 + low;
    }
  }

  lemma DecodeY(y: int, c: nat, high: nat)
    requires -P12 / 2 <= y < P12 / 2 && c == y % P12 && high < P52
    ensures Sar(Shl(AsI64(high * P12 + c), P52), P52) == y
  {
    var u := high * P12 + c;
    assert (u * P52) % TWO_64 == c * P52 by {
      assert u * P52 == high * TWO_64 + c * P52;
    }
    if y < 0 {
      assert c == y + P12;
      assert AsI64(c * P52) == y * P52;
    }
  }

  lemma DecodeZ(z: int, b: nat, a: nat, c: nat)
    requires -P26 / 2 <= z < P26 / 2 && b == z % P26 && a < P26 && c < P12
    ensures Sar(Shl(AsI64(a * P38 + b * P12 + c), P26), P38) == z
  {
    var low := b * P12 + c;
    ShlDropsX(a, low);
    SarZ(z, b, c);
  }

  /** Shifting left by 26 pushes the x field out past bit 63. */
  lemma ShlDropsX(a: nat, low: nat)
    requires a < P26 && low < P38
    ensures low * P26 < TWO_64
    ensures Shl(AsI64(a * P38 + low), P26) == AsI64(low * P26)
  {
    var u := a * P38 + low;
    I64U64Inverse(0, u);
    assert u * P26 == a * TWO_64 + low * P26;
    assert (u * P26) % TWO_64 == low * P26;
  }

  /** The z field, now in the top 26 bits, comes back with its sign. */
  lemma SarZ(z: int, b: nat, c: nat)
    requires -P26 / 2 <= z < P26 / 2 && b == z % P26 && c < P12
    ensures (b * P12 + c) * P26 < TWO_64
    ensures AsI64((b * P12 + c) * P26) / P38 == z
  {
    var low := b * P12 + c;
    assert low * P26 == b * P38 + c * P26;
    if z < 0 {
      assert b == z + P26;
      assert AsI64(low * P26) == z * P38 + c * P26;
    }
  }

  /** `Position::write_to`: always the eight big-endian bytes of the
      packed value. */
  function WritePosition(p: Position): (r: seq<byte>)
    ensures |r| == 8
  {
    ToBe(AsU64(Encode(p)), 8)
  }

  /** `Position::read_from`: eight bytes, or UnexpectedEof. */
  function ReadPosition(input: seq<byte>): (r: Result<Decoded<Position>, IoError>)
    ensures r.Ok? <==> |input| >= 8
    ensures r.Ok? ==> r.value.size == 8
  {
    var buf :- ReadExact(input, 8);
    assert FromBe(buf) < TWO_64;
    Ok(Decoded(Decode(AsI64(FromBe(buf))), 8))
  }

  /** The protocol round trip of the tests: an in-range position reads
      back equal, eight bytes written and eight read. */
  lemma PositionRoundTrip(p: Position, rest: seq<byte>)
    requires InRange(p)
    ensures ReadPosition(WritePosition(p) + rest) == Ok(Decoded(p, 8))
  {
    var bs := WritePosition(p);
    assert (bs + rest)[..8] == bs;
    FromBeToBe(AsU64(Encode(p)), 8);
    I64U64Inverse(Encode(p), 0);
    DecodeEncode(p);
  }
}
