/** Stream operators of parameter types that read back what they write. */
module Codecs {
  import opened BitCodes
  import opened BitStreams
  import opened Options
  import opened ParamFraming
  import opened SuffixOrder

  // ---------------------------------------------------------------- one byte

  function WriteByte(v: Byte, item: bool, c: nat): seq<bool> {
    Bits(v, 8)
  }

  function ReadByte(s: seq<bool>, item: bool, c: nat): Option<(Byte, nat)> {
    match ReadNumber(s, c, 8)
    case None => None
    case Some((x, next)) => var v: Byte := x % 256; Some((v, next))
  }

  function ByteCodec(): Codec<Byte> {
    Codec(WriteByte, ReadByte)
  }

  lemma ByteTaken(v: Byte, item: bool, c: nat, s: seq<bool>, end: nat)
    requires Starts(s, c, WriteByte(v, item, c)) && end == c + 8
    ensures ReadByte(s, item, c) == Some((v, end))
  {
    Powers();
    ReadNumberBits(s, c, v, 8, end);
  }

  lemma ByteMatches()
    ensures Matches(ByteCodec())
  {
    forall v: Byte, item: bool, c: nat, s: seq<bool> | Starts(s, c, WriteByte(v, item, c))
      ensures TakesBack(ByteCodec(), v, item, c, s)
    {
      ByteTaken(v, item, c, s, c + 8);
    }
  }

  // ---------------------------------------------------------------- aligned byte arrays

  type Text = b: seq<Byte> | |b| < TWO32

  function Clipped(n: nat, max: nat): nat {
    if n < max then n else max
  }

  /** WriteAlignedBytesSafe at cursor c: the whole length, and on a byte boundary at most max bytes. */
  function TextBits(v: Text, max: nat, c: nat): seq<bool> {
    var count := Compressed(CountBytes(|v|), true);
    if v == [] then count
    else count + (Padded(c + |count|) + ByteBits(v[..Clipped(|v|, max)]))
  }

  /** ReadAlignedBytesSafe: no alignment when there is nothing to read. */
  function ReadText(s: seq<bool>, max: nat, c: nat): Option<(Text, nat)>
    requires max < TWO32
  {
    match Decompressed(s, c, 4, true)
    case None => None
    case Some((b, c1)) =>
      var n := Clipped(CountOf(b), max);
      if n == 0 then var none: Text := []; Some((none, c1))
      else match ReadBytes(s, c1 + Padding(c1), n)
        case None => None
        case Some((bytes, end)) => var v: Text := bytes; Some((v, end))
  }

  lemma NoTextRead(s: seq<bool>, max: nat, c: nat, count: seq<Byte>, c1: nat, v: Text)
    requires 0 < max < TWO32 && |count| == 4 && v == []
    requires Decompressed(s, c, 4, true) == Some((count, c1)) && CountOf(count) == 0
    ensures ReadText(s, max, c) == Some((v, c1))
  {
  }

  lemma LongTextRead(s: seq<bool>, n: nat, sent: Text, max: nat, c: nat, c1: nat, whole: seq<bool>, end: nat)
    requires 0 < max < TWO32 && n < TWO32 && |sent| == Clipped(n, max) > 0
    requires c1 == c + |Compressed(CountBytes(n), true)| && end == c + |whole|
    requires whole == Compressed(CountBytes(n), true) + (Padded(c1) + ByteBits(sent)) && Starts(s, c, whole)
    ensures ReadText(s, max, c) == Some((sent, end))
  {
    BodyFollows(s, c, Compressed(CountBytes(n), true), ByteBits(sent), c1, whole, end);
    CountRead(s, c, n, c1);
    BytesRoundTrip(s, c1 + Padding(c1), sent, end);
    ReadTextParts(s, max, c, CountBytes(n), c1, sent, end);
  }

  lemma ReadTextParts(s: seq<bool>, max: nat, c: nat, count: seq<Byte>, c1: nat, sent: Text, end: nat)
    requires |count| == 4 && 0 < max < TWO32 && |sent| == Clipped(CountOf(count), max) > 0
    requires Decompressed(s, c, 4, true) == Some((count, c1))
    requires ReadBytes(s, c1 + Padding(c1), |sent|) == Some((sent, end))
    ensures ReadText(s, max, c) == Some((sent, end))
  {
  }

  lemma BodyFollows(s: seq<bool>, c: nat, count: seq<bool>, body: seq<bool>, c1: nat, whole: seq<bool>, end: nat)
    requires c1 == c + |count| && whole == count + (Padded(c1) + body) && Starts(s, c, whole) && end == c + |whole|
    ensures Starts(s, c, count) && Starts(s, c1 + Padding(c1), body) && end == c1 + Padding(c1) + |body|
  {
    StartsParts(s, c, whole, count, Padded(c1) + body, c1);
    StartsParts(s, c1, Padded(c1) + body, Padded(c1), body, c1 + Padding(c1));
  }

  lemma CountRead(s: seq<bool>, c: nat, n: nat, next: nat)
    requires n < TWO32 && Starts(s, c, Compressed(CountBytes(n), true))
    requires next == c + |Compressed(CountBytes(n), true)|
    ensures Decompressed(s, c, 4, true) == Some((CountBytes(n), next)) && CountOf(CountBytes(n)) == n
  {
    CompressedRoundTrip(s, c, CountBytes(n), true, next);
    CountRoundTrip(n);
  }

  lemma EmptyRead(s: seq<bool>, v: Text, max: nat, c: nat, end: nat)
    requires 0 < max < TWO32 && v == [] && Starts(s, c, TextBits(v, max, c)) && end == c + |TextBits(v, max, c)|
    ensures ReadText(s, max, c) == Some((v, end))
  {
    CountRead(s, c, 0, end);
    NoTextRead(s, max, c, CountBytes(0), end, v);
  }

  lemma ClippedRead(s: seq<bool>, v: Text, sent: Text, max: nat, c: nat, end: nat)
    requires 0 < max < TWO32 && v != [] && sent == v[..Clipped(|v|, max)]
    requires Starts(s, c, TextBits(v, max, c)) && end == c + |TextBits(v, max, c)|
    ensures ReadText(s, max, c) == Some((sent, end))
  {
    LongTextRead(s, |v|, sent, max, c, c + |Compressed(CountBytes(|v|), true)|, TextBits(v, max, c), end);
  }

  /** A byte array is read back, cut at the limit. */
  lemma TextRead(s: seq<bool>, v: Text, max: nat, c: nat, end: nat)
    requires 0 < max < TWO32 && Starts(s, c, TextBits(v, max, c)) && end == c + |TextBits(v, max, c)|
    ensures ReadText(s, max, c) == Some((if |v| <= max then v else v[..max], end))
  {
    if v == [] {
      EmptyRead(s, v, max, c, end);
    } else {
      ClippedRead(s, v, v[..Clipped(|v|, max)], max, c, end);
      assert v[..|v|] == v;
    }
  }

  lemma NothingRead(s: seq<bool>, c: nat, count: seq<Byte>, c1: nat)
    requires |count| == 4 && Decompressed(s, c, 4, true) == Some((count, c1))
    ensures ReadText(s, 0, c).Some? && ReadText(s, 0, c).value.0 == [] && ReadText(s, 0, c).value.1 == c1
  {
  }

  lemma NoPadding(c: nat)
    ensures Padding(c) == 0 <==> c % 8 == 0
  {
  }

  /** With a limit of zero the writer still aligns and the reader does not. */
  lemma ZeroLimit(s: seq<bool>, v: Text, count: seq<bool>, c: nat, c1: nat, end: nat)
    requires v != [] && count == Compressed(CountBytes(|v|), true) && c1 == c + |count|
    requires Starts(s, c, TextBits(v, 0, c)) && end == c + |TextBits(v, 0, c)|
    ensures ReadText(s, 0, c).Some? && ReadText(s, 0, c).value.0 == [] && ReadText(s, 0, c).value.1 == c1
    ensures c1 == end <==> c1 % 8 == 0
  {
    assert Starts(s, c, count) && end == c1 + Padding(c1) by {
      BodyFollows(s, c, count, ByteBits(v[..0]), c1, TextBits(v, 0, c), end);
    }
    NoPadding(c1);
    assert Decompressed(s, c, 4, true) == Some((CountBytes(|v|), c1)) by {
      CountRead(s, c, |v|, c1);
    }
    NothingRead(s, c, CountBytes(|v|), c1);
  }

  function WriteText(v: Text, item: bool, c: nat): seq<bool> {
    TextBits(v, TWO32 - 1, c)
  }

  function ReadWholeText(s: seq<bool>, item: bool, c: nat): Option<(Text, nat)> {
    ReadText(s, TWO32 - 1, c)
  }

  function TextCodec(): Codec<Text> {
    Codec(WriteText, ReadWholeText)
  }

  lemma TextTaken(v: Text, item: bool, c: nat, s: seq<bool>, end: nat)
    requires Starts(s, c, WriteText(v, item, c)) && end == c + |WriteText(v, item, c)|
    ensures ReadWholeText(s, item, c) == Some((v, end))
  {
    TextRead(s, v, TWO32 - 1, c, end);
  }

  lemma TextMatches()
    ensures Matches(TextCodec())
  {
    forall v: Text, item: bool, c: nat, s: seq<bool> | Starts(s, c, WriteText(v, item, c))
      ensures TakesBack(TextCodec(), v, item, c, s)
    {
      TextTaken(v, item, c, s, c + |WriteText(v, item, c)|);
    }
  }
}
