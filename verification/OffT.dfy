/** offtout and offtin: file offsets as eight bytes, little-endian magnitude with a sign bit. */
module OffT {
  import opened SuffixOrder

  const TWO_63 := 0x8000_0000_0000_0000

  /** The offsets that have a sign-and-magnitude form in 64 bits. */
  type Offset = x: int | -TWO_63 < x < TWO_63

  /** The n low-order bytes of y. */
  function Little(y: nat, n: nat): (r: seq<Byte>)
    ensures |r| == n
  {
    if n == 0 then [] else [y % 256] + Little(y / 256, n - 1)
  }

  /** The number that the bytes of b stand for. */
  function Value(b: seq<Byte>): nat {
    if b == [] then 0 else b[0] + 256 * Value(b[1..])
  }

  function Pow256(n: nat): nat {
    if n == 0 then 1 else 256 * Pow256(n - 1)
  }

  function Abs(x: int): nat {
    if x < 0 then -x else x
  }

  /** The eight bytes of x. */
  function Encode(x: Offset): (r: seq<Byte>)
    ensures |r| == 8
  {
    var m := Little(Abs(x), 8);
    TopByteSmall(Abs(x));
    if x < 0 then m[7 := m[7] + 128] else m
  }

  /** The offset that eight bytes stand for. */
  function Decode(b: seq<Byte>): (x: Offset)
    requires |b| == 8
  {
    var m: int := Value(b[7 := b[7] % 128]);
    ValueTop(b[7 := b[7] % 128]);
    if b[7] >= 128 then -m else m
  }

  lemma {:induction false} LittleValue(y: nat, n: nat)
    requires y < Pow256(n)
    ensures Value(Little(y, n)) == y
  {
    if n > 0 {
      LittleValue(y / 256, n - 1);
    }
  }

  lemma {:induction false} ValueLittle(b: seq<Byte>)
    ensures Value(b) < Pow256(|b|)
    ensures Little(Value(b), |b|) == b
  {
    if b != [] {
      ValueLittle(b[1..]);
      LowByte(b[0], Value(b[1..]));
      assert b == [b[0]] + b[1..];
    }
  }

  lemma LowByte(x: Byte, v: nat)
    ensures (x + 256 * v) % 256 == x && (x + 256 * v) / 256 == v
  {
  }

  lemma Value8(b: seq<Byte>)
    requires |b| == 8
    ensures Value(b) == b[0] as int + 256 * (b[1] as int + 256 * (b[2] as int + 256 * (b[3] as int
              + 256 * (b[4] as int + 256 * (b[5] as int + 256 * (b[6] as int + 256 * (b[7] as int)))))))
  {
    assert b[1..][1..] == b[2..] && b[2..][1..] == b[3..] && b[3..][1..] == b[4..];
    assert b[4..][1..] == b[5..] && b[5..][1..] == b[6..] && b[6..][1..] == b[7..] && b[7..][1..] == [];
    assert Value(b) == b[0] + 256 * Value(b[1..]);
    assert Value(b[1..]) == b[1] + 256 * Value(b[2..]);
    assert Value(b[2..]) == b[2] + 256 * Value(b[3..]);
    assert Value(b[3..]) == b[3] + 256 * Value(b[4..]);
    assert Value(b[4..]) == b[4] + 256 * Value(b[5..]);
    assert Value(b[5..]) == b[5] + 256 * Value(b[6..]);
    assert Value(b[6..]) == b[6] + 256 * Value(b[7..]);
    assert Value(b[7..]) == b[7] + 256 * Value(b[7..][1..]);
  }

  lemma Pow8()
    ensures Pow256(8) == 2 * TWO_63
  {
    assert Pow256(4) == 0x1_0000_0000;
    assert Pow256(8) == 256 * Pow256(7) && Pow256(7) == 256 * Pow256(6) && Pow256(6) == 256 * Pow256(5) &&
        Pow256(5) == 256 * Pow256(4);
  }

  /** The sign bit is free for magnitudes below 2^63. */
  lemma TopByteSmall(y: nat)
    ensures y < TWO_63 ==> Little(y, 8)[7] < 128
  {
    if y < TWO_63 {
      Pow8();
      LittleValue(y, 8);
      Value8(Little(y, 8));
    }
  }

  lemma ValueTop(b: seq<Byte>)
    requires |b| == 8 && b[7] < 128
    ensures Value(b) < TWO_63
  {
    Value8(b);
  }

  /** Reading back what was written. */
  lemma DecodeEncode(x: Offset)
    ensures Decode(Encode(x)) == x
  {
    Pow8();
    TopByteSmall(Abs(x));
    LittleValue(Abs(x), 8);
    var m, b := Little(Abs(x), 8), Encode(x);
    assert b[7 := b[7] % 128] == m;
  }

  lemma ZeroBytes(c: seq<Byte>)
    requires |c| == 8 && Value(c) == 0
    ensures c == [0, 0, 0, 0, 0, 0, 0, 0]
  {
    Value8(c);
  }

  /** The magnitude that Decode reads: the bytes with the sign bit cleared. */
  lemma Magnitude(b: seq<Byte>, c: seq<Byte>)
    requires |b| == 8 && c == b[7 := b[7] % 128]
    ensures Value(c) < TWO_63 && Abs(Decode(b)) == Value(c)
    ensures Little(Value(c), 8) == c
  {
    ValueTop(c);
    ValueLittle(c);
  }

  /** The number in the bytes themselves: little-endian, with the top bit of the last byte for the sign. */
  lemma DecodeMeans(b: seq<Byte>)
    requires |b| == 8
    ensures var m := b[0] as int + 256 * (b[1] as int + 256 * (b[2] as int + 256 * (b[3] as int
                     + 256 * (b[4] as int + 256 * (b[5] as int + 256 * (b[6] as int + 256 * (b[7] as int % 128)))))));
      Decode(b) == if b[7] >= 128 then -m else m
  {
    Value8(b[7 := b[7] % 128]);
  }

  lemma SecondZero(b: seq<Byte>)
    requires |b| == 8 && b[7] >= 128
    ensures Decode(b) == 0 <==> b == [0, 0, 0, 0, 0, 0, 0, 128]
  {
    var c := b[7 := b[7] % 128];
    Magnitude(b, c);
    if Decode(b) == 0 {
      ZeroBytes(c);
      assert b == c[7 := 128];
    }
    if b == [0, 0, 0, 0, 0, 0, 0, 128] {
      assert c == [0, 0, 0, 0, 0, 0, 0, 0];
      Value8(c);
    }
  }

  /** It is negative exactly if the sign bit and some other bit are set. */
  lemma DecodeNegative(b: seq<Byte>)
    requires |b| == 8
    ensures Decode(b) < 0 <==> b[7] >= 128 && b != [0, 0, 0, 0, 0, 0, 0, 128]
  {
    DecodeMeans(b);
    if b[7] >= 128 {
      SecondZero(b);
    }
  }

  /** Every eight bytes are the encoding of what they decode to, except the second zero. */
  lemma EncodeDecode(b: seq<Byte>)
    requires |b| == 8
    ensures Encode(Decode(b)) == b <==> b != [0, 0, 0, 0, 0, 0, 0, 128]
  {
    if b[7] < 128 {
      EncodePositive(b);
    } else {
      EncodeNegative(b, b[7 := b[7] % 128]);
      SecondZero(b);
    }
  }

  lemma EncodePositive(b: seq<Byte>)
    requires |b| == 8 && b[7] < 128
    ensures Encode(Decode(b)) == b
  {
    assert b[7 := b[7] % 128] == b;
    Magnitude(b, b);
  }

  lemma EncodeNegative(b: seq<Byte>, c: seq<Byte>)
    requires |b| == 8 && b[7] >= 128 && c == b[7 := b[7] % 128]
    ensures Encode(Decode(b)) == if Decode(b) == 0 then c else b
  {
    Magnitude(b, c);
    assert c[7 := c[7] + 128] == b;
  }

  lemma LittleSteps(y: nat)
    ensures var y1 := y / 256; var y2 := y1 / 256; var y3 := y2 / 256; var y4 := y3 / 256;
      var y5 := y4 / 256; var y6 := y5 / 256; var y7 := y6 / 256;
      Little(y, 8) == [y % 256, y1 % 256, y2 % 256, y3 % 256, y4 % 256, y5 % 256, y6 % 256, y7 % 256]
  {
    var y1 := y / 256;
    var y2 := y1 / 256;
    var y3 := y2 / 256;
    var y4 := y3 / 256;
    var y5 := y4 / 256;
    var y6 := y5 / 256;
    var y7 := y6 / 256;
    assert Little(y7, 1) == [y7 % 256];
    assert Little(y6, 2) == [y6 % 256] + Little(y7, 1);
    assert Little(y5, 3) == [y5 % 256] + Little(y6, 2);
    assert Little(y4, 4) == [y4 % 256] + Little(y5, 3);
    assert Little(y3, 5) == [y3 % 256] + Little(y4, 4);
    assert Little(y2, 6) == [y2 % 256] + Little(y3, 5);
    assert Little(y1, 7) == [y1 % 256] + Little(y2, 6);
    assert Little(y, 8) == [y % 256] + Little(y1, 7);
  }

  /** The eight shifts of offtout. */
  method WriteMagnitude(y0: nat, buf: array<Byte>, at: nat)
    requires at + 8 <= buf.Length
    modifies buf
    ensures buf[at..at + 8] == Little(y0, 8)
    ensures forall k :: 0 <= k < buf.Length && !(at <= k < at + 8) ==> buf[k] == old(buf[k])
  {
    var y := y0;
    LittleSteps(y);
    buf[at] := y % 256;
    y := y / 256;
    buf[at + 1] := y % 256;
    y := y / 256;
    buf[at + 2] := y % 256;
    y := y / 256;
    buf[at + 3] := y % 256;
    y := y / 256;
    buf[at + 4] := y % 256;
    y := y / 256;
    buf[at + 5] := y % 256;
    y := y / 256;
    buf[at + 6] := y % 256;
    y := y / 256;
    buf[at + 7] := y % 256;
  }

  /** offtout: writes x to buf[at..at + 8]. */
  method OffTOut(x: Offset, buf: array<Byte>, at: nat)
    requires at + 8 <= buf.Length
    modifies buf
    ensures buf[..] == old(buf[..])[..at] + Encode(x) + old(buf[..])[at + 8..]
  {
    ghost var b0 := buf[..];
    WriteMagnitude(Abs(x), buf, at);
    ghost var m := Little(Abs(x), 8);
    TopByteSmall(Abs(x));
    assert buf[at + 7] == buf[at..at + 8][7] == m[7];
    if x < 0 {
      buf[at + 7] := buf[at + 7] + 128;
    }
    Spliced(b0, buf[..], at, Encode(x));
  }

  lemma Spliced(b0: seq<Byte>, b: seq<Byte>, at: nat, e: seq<Byte>)
    requires |b| == |b0| && |e| == 8 && at + 8 <= |b|
    requires forall k :: 0 <= k < |b| && !(at <= k < at + 8) ==> b[k] == b0[k]
    requires b[at..at + 8] == e
    ensures b == b0[..at] + e + b0[at + 8..]
  {
    assert b == b[..at] + b[at..at + 8] + b[at + 8..];
  }

  /** offtin: accumulates the magnitude from the most significant byte down. */
  method OffTIn(buf: seq<Byte>) returns (r: Offset)
    requires |buf| == 8
    ensures r == Decode(buf)
  {
    ghost var c := buf[7 := buf[7] % 128];
    Value8(c);
    var y: int := buf[7] % 128;
    y := y * 256;
    y := y + buf[6];
    y := y * 256;
    y := y + buf[5];
    y := y * 256;
    y := y + buf[4];
    y := y * 256;
    y := y + buf[3];
    y := y * 256;
    y := y + buf[2];
    y := y * 256;
    y := y + buf[1];
    y := y * 256;
    y := y + buf[0];
    if buf[7] >= 128 {
      y := -y;
    }
    r := y;
  }
}
