/** The codes of a bit stream: whole bytes, fixed-width numbers and compressed 32-bit numbers. */
module BitCodes {
  import opened Options
  import opened SuffixOrder

  /** The n low-order bits of x, most significant first. */
  function Bits(x: nat, n: nat): (b: seq<bool>)
    ensures |b| == n
  {
    if n == 0 then [] else Bits(x / 2, n - 1) + [x % 2 == 1]
  }

  /** The number that bits stand for, most significant first. */
  function Number(b: seq<bool>): nat {
    if b == [] then 0 else 2 * Number(b[..|b| - 1]) + (if b[|b| - 1] then 1 else 0)
  }

  function Pow2(n: nat): nat {
    if n == 0 then 1 else 2 * Pow2(n - 1)
  }

  lemma {:induction false} NumberBits(x: nat, n: nat)
    requires x < Pow2(n)
    ensures Number(Bits(x, n)) == x
  {
    if n > 0 {
      NumberBits(x / 2, n - 1);
      assert Bits(x, n)[..n - 1] == Bits(x / 2, n - 1);
    }
  }

  /** s read at cursor c starts with b. */
  ghost predicate Starts(s: seq<bool>, c: nat, b: seq<bool>) {
    c + |b| <= |s| && forall i {:trigger b[i]} :: 0 <= i < |b| ==> s[c + i] == b[i]
  }

  lemma StartsParts(s: seq<bool>, c: nat, whole: seq<bool>, a: seq<bool>, b: seq<bool>, next: nat)
    requires Starts(s, c, whole) && whole == a + b && next == c + |a|
    ensures Starts(s, c, a) && Starts(s, next, b) && c + |whole| == next + |b|
  {
    forall i | 0 <= i < |a|
      ensures s[c + i] == a[i]
    {
      assert whole[i] == a[i];
    }
    forall i | 0 <= i < |b|
      ensures s[next + i] == b[i]
    {
      assert whole[|a| + i] == b[i];
    }
  }

  lemma StartsBit(s: seq<bool>, c: nat, whole: seq<bool>, b: bool, rest: seq<bool>, next: nat)
    requires Starts(s, c, whole) && whole == [b] + rest && next == c + 1
    ensures c < |s| && s[c] == b && Starts(s, next, rest) && c + |whole| == next + |rest|
  {
    StartsParts(s, c, whole, [b], rest, next);
    assert [b][0] == b;
  }

  function ReadBit(s: seq<bool>, c: nat): Option<(bool, nat)> {
    if c < |s| then Some((s[c], c + 1)) else None
  }

  /** The n bits at cursor c as a number, and the cursor behind them. */
  function ReadNumber(s: seq<bool>, c: nat, n: nat): Option<(nat, nat)> {
    if c + n <= |s| then Some((Number(s[c..c + n]), c + n)) else None
  }

  lemma ReadNumberBits(s: seq<bool>, c: nat, x: nat, n: nat, next: nat)
    requires Starts(s, c, Bits(x, n)) && x < Pow2(n) && next == c + n
    ensures ReadNumber(s, c, n) == Some((x, next))
  {
    assert s[c..c + n] == Bits(x, n);
    NumberBits(x, n);
  }

  // ---------------------------------------------------------------- whole bytes

  function ByteBits(bytes: seq<Byte>): (b: seq<bool>)
    ensures |b| == 8 * |bytes|
  {
    if bytes == [] then [] else Bits(bytes[0], 8) + ByteBits(bytes[1..])
  }

  function ReadBytes(s: seq<bool>, c: nat, n: nat): (r: Option<(seq<Byte>, nat)>)
    ensures r.Some? ==> |r.value.0| == n && r.value.1 == c + 8 * n
    decreases n
  {
    if n == 0 then Some(([], c))
    else match ReadNumber(s, c, 8)
      case None => None
      case Some((x, next)) =>
        match ReadBytes(s, next, n - 1)
        case None => None
        case Some((rest, end)) => Some(([x % 256] + rest, end))
  }

  lemma {:induction false} BytesRoundTrip(s: seq<bool>, c: nat, bytes: seq<Byte>, end: nat)
    requires Starts(s, c, ByteBits(bytes)) && end == c + |ByteBits(bytes)|
    ensures ReadBytes(s, c, |bytes|) == Some((bytes, end))
    decreases |bytes|
  {
    if bytes != [] {
      var x, rest := bytes[0], bytes[1..];
      StartsParts(s, c, ByteBits(bytes), Bits(x, 8), ByteBits(rest), c + 8);
      Powers();
      ReadNumberBits(s, c, x, 8, c + 8);
      BytesRoundTrip(s, c + 8, rest, end);
      assert bytes == [x] + rest;
    }
  }

  lemma Powers()
    ensures Pow2(4) == 16 && Pow2(7) == 128 && Pow2(8) == 256
  {
    assert Pow2(8) == 2 * Pow2(7) && Pow2(7) == 2 * Pow2(6) && Pow2(6) == 2 * Pow2(5) && Pow2(5) == 2 * Pow2(4);
    assert Pow2(4) == 2 * Pow2(3) && Pow2(3) == 2 * Pow2(2) && Pow2(2) == 2 * Pow2(1);
  }

  /** Bit i of n, from the most significant on. */
  lemma {:induction false} BitAt(x: nat, n: nat, i: nat)
    requires i < n
    ensures Pow2(n - 1 - i) > 0 && Bits(x, n)[i] == (x / Pow2(n - 1 - i) % 2 == 1)
    decreases n
  {
    if i < n - 1 {
      BitAt(x / 2, n - 1, i);
      HalfQuotient(x, Pow2(n - 2 - i));
    }
  }

  lemma HalfQuotient(x: nat, d: nat)
    requires d > 0
    ensures x / (2 * d) == x / 2 / d
  {
    var q, r := x / 2 / d, x / 2 % d;
    assert x / 2 == d * q + r && x == 2 * (x / 2) + x % 2;
    assert d * q * 2 == 2 * d * q;
    QuotientIs(x, 2 * d, q, 2 * r + x % 2);
  }

  lemma QuotientIs(x: nat, d: nat, q: nat, r: nat)
    requires r < d && x == d * q + r
    ensures x / d == q
  {
    var p := x / d;
    assert x == d * p + x % d;
    MultiplesApart(d, p, q);
    MultiplesApart(d, q, p);
  }

  lemma {:induction false} MultiplesApart(d: nat, p: nat, q: nat)
    ensures p < q ==> d * p + d <= d * q
    decreases q
  {
    if p < q {
      OneMoreTime(d, q - 1);
      MultiplesApart(d, p, q - 1);
    }
  }

  lemma OneMoreTime(d: nat, p: nat)
    ensures d * (p + 1) == d * p + d
  {
  }

  /** Bit i of byte j: the bytes come in order, and each from its most significant bit on. */
  lemma {:induction false} ByteBitAt(bytes: seq<Byte>, j: nat, i: nat)
    requires j < |bytes| && i < 8
    ensures Pow2(7 - i) > 0 && ByteBits(bytes)[8 * j + i] == (bytes[j] / Pow2(7 - i) % 2 == 1)
    decreases j
  {
    if j == 0 {
      BitAt(bytes[0], 8, i);
    } else {
      ByteBitAt(bytes[1..], j - 1, i);
    }
  }

  // ---------------------------------------------------------------- WriteCompressed, ReadCompressed

  /** The byte that is left out at the high end of a number: zero, or all ones for signed data. */
  function ByteMatch(unsignedData: bool): Byte {
    if unsignedData then 0 else 255
  }

  /** The high half of the last byte when it is left out. */
  function HalfMatch(unsignedData: bool): Byte {
    if unsignedData then 0 else 240
  }

  /** From the last byte down, a byte that matches is one bit; the first other byte ends it with all the
      bytes up to it, and byte 0 takes four bits if it can. */
  function Compressed(bytes: seq<Byte>, unsignedData: bool): (b: seq<bool>)
    requires bytes != []
    ensures 0 < |b| <= 9 * |bytes|
  {
    var k := |bytes| - 1;
    if k > 0 then
      if bytes[k] == ByteMatch(unsignedData) then [true] + Compressed(bytes[..k], unsignedData)
      else [false] + ByteBits(bytes)
    else if bytes[0] - bytes[0] % 16 == HalfMatch(unsignedData) then [true] + Bits(bytes[0] % 16, 4)
    else [false] + Bits(bytes[0], 8)
  }

  /** The last byte, from four bits or eight. */
  function LastByte(x: nat, half: bool, unsignedData: bool): Byte {
    if half then x % 16 + HalfMatch(unsignedData) else x % 256
  }

  /** What is read back for n bytes at cursor c, and the cursor behind; nothing if the stream ends. */
  function Decompressed(s: seq<bool>, c: nat, n: nat, unsignedData: bool): Option<(seq<Byte>, nat)>
    requires n > 0
    decreases n
  {
    if c >= |s| then None
    else if n > 1 then
      if s[c] then
        match Decompressed(s, c + 1, n - 1, unsignedData)
        case None => None
        case Some((low, next)) => Some((low + [ByteMatch(unsignedData)], next))
      else ReadBytes(s, c + 1, n)
    else
      match ReadNumber(s, c + 1, if s[c] then 4 else 8)
      case None => None
      case Some((x, next)) => Some(([LastByte(x, s[c], unsignedData)], next))
  }

  lemma {:induction false} CompressedRoundTrip(s: seq<bool>, c: nat, bytes: seq<Byte>, unsignedData: bool, end: nat)
    requires bytes != [] && Starts(s, c, Compressed(bytes, unsignedData))
    requires end == c + |Compressed(bytes, unsignedData)|
    ensures Decompressed(s, c, |bytes|, unsignedData) == Some((bytes, end))
    decreases |bytes|
  {
    var k := |bytes| - 1;
    if k > 0 && bytes[k] == ByteMatch(unsignedData) {
      var low := bytes[..k];
      StartsBit(s, c, Compressed(bytes, unsignedData), true, Compressed(low, unsignedData), c + 1);
      CompressedRoundTrip(s, c + 1, low, unsignedData, end);
      assert low + [bytes[k]] == bytes;
    } else if k > 0 {
      StartsBit(s, c, Compressed(bytes, unsignedData), false, ByteBits(bytes), c + 1);
      BytesRoundTrip(s, c + 1, bytes, end);
    } else {
      LastByteRoundTrip(s, c, bytes[0], unsignedData, Compressed(bytes, unsignedData));
      assert bytes == [bytes[0]];
    }
  }

  lemma {:induction false} BytesLeftOut(bytes: seq<Byte>, unsignedData: bool, k: nat)
    requires k < |bytes| && forall j :: k < j < |bytes| ==> bytes[j] == if unsignedData then 0 else 255
    ensures Compressed(bytes, unsignedData)
         == seq(|bytes| - 1 - k, _ => true) + Compressed(bytes[..k + 1], unsignedData)
    decreases |bytes|
  {
    var n := |bytes| - 1;
    if k < n {
      BytesLeftOut(bytes[..n], unsignedData, k);
      assert bytes[..n][..k + 1] == bytes[..k + 1];
      OneMore(Compressed(bytes[..k + 1], unsignedData), n - 1 - k);
    } else {
      assert bytes[..k + 1] == bytes;
    }
  }

  lemma OneMore(b: seq<bool>, n: nat)
    ensures [true] + (seq(n, _ => true) + b) == seq(n + 1, _ => true) + b
  {
    assert [true] + seq(n, _ => true) == seq(n + 1, _ => true);
  }

  /** The code of a number from its bytes alone, k being the highest byte that is not zero, or not all ones for
      signed data: a set bit for every byte above it, then a clear one and all bytes up to k; when only byte 0 is
      left, a set bit and four others if its high half can be left out, a clear one and eight others if not. */
  lemma CompressedExactly(bytes: seq<Byte>, unsignedData: bool, k: nat)
    requires k < |bytes| && (k > 0 ==> bytes[k] != if unsignedData then 0 else 255)
    requires forall j :: k < j < |bytes| ==> bytes[j] == if unsignedData then 0 else 255
    ensures
      Compressed(bytes, unsignedData) == seq(|bytes| - 1 - k, _ => true) +
        if k > 0 then [false] + ByteBits(bytes[..k + 1])
        else if (if unsignedData then bytes[0] < 16 else bytes[0] >= 240) then [true] + Bits(bytes[0] % 16, 4)
        else [false] + Bits(bytes[0], 8)
  {
    BytesLeftOut(bytes, unsignedData, k);
    LowBytes(bytes[..k + 1], unsignedData);
  }

  /** The code when the highest byte is not left out. */
  lemma LowBytes(low: seq<Byte>, unsignedData: bool)
    requires low != [] && (|low| > 1 ==> low[|low| - 1] != if unsignedData then 0 else 255)
    ensures Compressed(low, unsignedData) ==
      if |low| > 1 then [false] + ByteBits(low)
      else if (if unsignedData then low[0] < 16 else low[0] >= 240) then [true] + Bits(low[0] % 16, 4)
      else [false] + Bits(low[0], 8)
  {
    var x := low[0];
    assert x - x % 16 == HalfMatch(unsignedData) <==> if unsignedData then x < 16 else x >= 240;
  }

  /** A flag and a number behind it. */
  lemma TailRead(s: seq<bool>, c: nat, flag: bool, x: nat, n: nat, bits: seq<bool>)
    requires bits == [flag] + Bits(x, n) && Starts(s, c, bits) && (n == 4 || n == 8) && x < (if n == 4 then 16 else 256)
    ensures c < |s| && s[c] == flag && ReadNumber(s, c + 1, n) == Some((x, c + |bits|))
  {
    Powers();
    StartsBit(s, c, bits, flag, Bits(x, n), c + 1);
    ReadNumberBits(s, c + 1, x, n, c + 1 + n);
  }

  lemma LastByteIs(x: Byte, unsignedData: bool)
    ensures x - x % 16 == HalfMatch(unsignedData) ==> LastByte(x % 16, true, unsignedData) == x
    ensures LastByte(x, false, unsignedData) == x
  {
  }

  lemma LastByteRoundTrip(s: seq<bool>, c: nat, x: Byte, unsignedData: bool, bits: seq<bool>)
    requires bits == if x - x % 16 == HalfMatch(unsignedData) then [true] + Bits(x % 16, 4) else [false] + Bits(x, 8)
    requires Starts(s, c, bits)
    ensures c < |s|
    ensures
      var r := ReadNumber(s, c + 1, if s[c] then 4 else 8);
      r.Some? && LastByte(r.value.0, s[c], unsignedData) == x && r.value.1 == c + |bits|
  {
    LastByteIs(x, unsignedData);
    var half := x - x % 16 == HalfMatch(unsignedData);
    if half {
      TailRead(s, c, true, x % 16, 4, bits);
    } else {
      TailRead(s, c, false, x, 8, bits);
    }
  }

  /** The 32 bits of a count as they are compressed, the most significant byte first. */
  function CountBytes(count: nat): (b: seq<Byte>)
    ensures |b| == 4
  {
    [count / 0x100_0000 % 256, count / 0x1_0000 % 256, count / 256 % 256, count % 256]
  }

  function CountOf(b: seq<Byte>): nat
    requires |b| == 4
  {
    b[0] as int * 0x100_0000 + b[1] as int * 0x1_0000 + b[2] as int * 256 + b[3] as int
  }

  lemma CountRoundTrip(count: nat)
    requires count < 0x1_0000_0000
    ensures CountOf(CountBytes(count)) == count
  {
    var b, c := count / 256, count / 0x1_0000;
    assert c == b / 256 && count / 0x100_0000 == c / 256 < 256;
  }

  /** The bits that a 32-bit count takes: its bytes go most significant first, so it is the low ones that are
      left out while they are zero. */
  lemma CountLength(count: nat)
    requires count < 0x1_0000_0000
    ensures |Compressed(CountBytes(count), true)| ==
      if count % 256 != 0 then 33
      else if count / 256 % 256 != 0 then 26
      else if count / 0x1_0000 % 256 != 0 then 19
      else if count / 0x100_0000 >= 16 then 12
      else 8
  {
    var bytes := CountBytes(count);
    var k := if bytes[3] != 0 then 3 else if bytes[2] != 0 then 2 else if bytes[1] != 0 then 1 else 0;
    CompressedExactly(bytes, true, k);
    assert count / 0x100_0000 < 256;
  }
}
