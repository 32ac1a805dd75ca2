/** A stream of bits that is written at one cursor and read at another. */
module BitStreams {
  import opened BitCodes
  import opened Options
  import opened SuffixOrder

  /** Bits up to the next byte boundary. */
  function Padding(c: nat): (n: nat)
    ensures n < 8 && (c + n) % 8 == 0
  {
    8 - ((c + 7) % 8 + 1)
  }

  function Padded(c: nat): (b: seq<bool>)
    ensures |b| == Padding(c)
  {
    seq(Padding(c), _ => false)
  }

  /** Bits with b written over them from u on. */
  function Over(bits: seq<bool>, u: nat, b: seq<bool>): seq<bool>
    requires u <= |bits|
  {
    bits[..u] + b + (if u + |b| < |bits| then bits[u + |b|..] else [])
  }

  class BitStream {
    /** The buffer: what lies behind `used` has been written before, and is kept. */
    var data: seq<bool>
    var used: nat
    var readOffset: nat

    ghost predicate Valid()
      reads this
    {
      used <= |data|
    }

    /** Nothing is kept behind the write cursor. */
    ghost predicate AtEnd()
      reads this
    {
      used == |data|
    }

    constructor ()
      ensures AtEnd() && data == [] && readOffset == 0
    {
      data, used, readOffset := [], 0, 0;
    }

    /** Writes over what lies at the cursor, and extends the buffer where it ends. Inside the buffer
        only whole bytes on a byte boundary are replaced without disturbing the bits around them. What this
        has to do with the bytes of the buffer is said by BitRefinement. */
    method Write(b: seq<bool>)
      requires Valid() && (AtEnd() || (used % 8 == 0 && |b| % 8 == 0))
      modifies `data, `used
      ensures Valid() && used == old(used) + |b|
      ensures data == Over(old(data), old(used), b)
    {
      data := Over(data, used, b);
      used := used + |b|;
    }

    method Append(b: seq<bool>)
      requires AtEnd()
      modifies `data, `used
      ensures AtEnd() && data == old(data) + b
    {
      Write(b);
    }

    method AlignWriteToByteBoundary()
      requires AtEnd()
      modifies `data, `used
      ensures AtEnd() && data == old(data) + Padded(|old(data)|)
    {
      data := data + Padded(used);
      used := used + Padding(used);
    }

    method SetWriteOffset(offset: nat)
      requires offset <= |data|
      modifies `used
      ensures Valid() && used == offset
    {
      used := offset;
    }

    /** From the last byte down, one bit for a byte that matches. */
    method WriteCompressed(bytes: seq<Byte>, unsignedData: bool)
      requires AtEnd() && bytes != []
      modifies `data, `used
      ensures AtEnd() && data == old(data) + Compressed(bytes, unsignedData)
    {
      var currentByte := |bytes| - 1;
      ghost var whole := data + Compressed(bytes, unsignedData);
      assert bytes[..|bytes|] == bytes;
      while currentByte > 0
        invariant 0 <= currentByte < |bytes| && AtEnd()
        invariant data + Compressed(bytes[..currentByte + 1], unsignedData) == whole
      {
        CompressedStep(bytes, unsignedData, currentByte + 1, data);
        if bytes[currentByte] != ByteMatch(unsignedData) {
          Append([false]);
          Append(ByteBits(bytes[..currentByte + 1]));
          return;
        }
        Append([true]);
        currentByte := currentByte - 1;
      }
      CompressedLast(bytes, unsignedData, data);
      if bytes[0] - bytes[0] % 16 == HalfMatch(unsignedData) {
        Append([true]);
        Append(Bits(bytes[0] % 16, 4));
      } else {
        Append([false]);
        Append(Bits(bytes[0], 8));
      }
    }

    /** The n bits at the read cursor as a number. */
    method Read(n: nat) returns (r: Option<nat>)
      requires Valid()
      modifies `readOffset
      ensures match ReadNumber(data[..used], old(readOffset), n)
              case None => r == None && readOffset == old(readOffset)
              case Some((x, next)) => r == Some(x) && readOffset == next
    {
      match ReadNumber(data[..used], readOffset, n)
      case None => r := None;
      case Some((x, next)) =>
        readOffset := next;
        r := Some(x);
    }

    method ReadBool() returns (r: Option<bool>)
      requires Valid()
      modifies `readOffset
      ensures match ReadBit(data[..used], old(readOffset))
              case None => r == None && readOffset == old(readOffset)
              case Some((b, next)) => r == Some(b) && readOffset == next
    {
      if readOffset < used {
        r := Some(data[readOffset]);
        readOffset := readOffset + 1;
      } else {
        r := None;
      }
    }

    method AlignReadToByteBoundary()
      modifies `readOffset
      ensures readOffset == old(readOffset) + Padding(old(readOffset))
    {
      readOffset := readOffset + Padding(readOffset);
    }

    method IgnoreBits(n: nat)
      modifies `readOffset
      ensures readOffset == old(readOffset) + n
    {
      readOffset := readOffset + n;
    }

    /** Takes n bytes back, or fails when the stream ends first. */
    method ReadCompressed(n: nat, unsignedData: bool) returns (r: Option<seq<Byte>>)
      requires Valid() && n > 0
      modifies `readOffset
      ensures match Decompressed(data[..used], old(readOffset), n, unsignedData)
              case None => r == None
              case Some((bytes, next)) => r == Some(bytes) && readOffset == next
    {
      ghost var s, c := data[..used], readOffset;
      var currentByte := n - 1;
      var high: seq<Byte> := [];
      ExtendedNone(Decompressed(s, c, n, unsignedData));
      while currentByte > 0
        invariant 0 <= currentByte < n && |high| == n - 1 - currentByte
        invariant data[..used] == s && Valid()
        invariant Decompressed(s, c, n, unsignedData)
               == Extended(Decompressed(s, readOffset, currentByte + 1, unsignedData), high)
      {
        ghost var at := readOffset;
        var b := ReadBool();
        if b == None {
          return None;
        }
        if !b.value {
          match ReadBytes(data[..used], readOffset, currentByte + 1)
          case None => return None;
          case Some((bytes, next)) =>
            readOffset := next;
            return Some(bytes + high);
        }
        ExtendedMatch(s, at, currentByte + 1, unsignedData, high);
        high := [ByteMatch(unsignedData)] + high;
        currentByte := currentByte - 1;
      }
      var b := ReadBool();
      if b == None {
        return None;
      }
      var x := Read(if b.value then 4 else 8);
      if x == None {
        return None;
      }
      r := Some([LastByte(x.value, b.value, unsignedData)] + high);
    }
  }

  lemma CompressedStep(bytes: seq<Byte>, unsignedData: bool, n: nat, done: seq<bool>)
    requires 1 < n <= |bytes|
    ensures done + Compressed(bytes[..n], unsignedData)
         == if bytes[n - 1] == ByteMatch(unsignedData) then (done + [true]) + Compressed(bytes[..n - 1], unsignedData)
            else (done + [false]) + ByteBits(bytes[..n])
  {
    assert bytes[..n][..n - 1] == bytes[..n - 1];
  }

  lemma CompressedLast(bytes: seq<Byte>, unsignedData: bool, done: seq<bool>)
    requires bytes != []
    ensures done + Compressed(bytes[..1], unsignedData)
         == if bytes[0] - bytes[0] % 16 == HalfMatch(unsignedData) then (done + [true]) + Bits(bytes[0] % 16, 4)
            else (done + [false]) + Bits(bytes[0], 8)
  {
  }

  /** The higher bytes put back behind what was read. */
  ghost function Extended(r: Option<(seq<Byte>, nat)>, high: seq<Byte>): Option<(seq<Byte>, nat)> {
    match r
    case None => None
    case Some((low, next)) => Some((low + high, next))
  }

  lemma ExtendedNone(r: Option<(seq<Byte>, nat)>)
    ensures Extended(r, []) == r
  {
    if r.Some? {
      assert r.value.0 + [] == r.value.0;
    }
  }

  lemma ExtendedMatch(s: seq<bool>, c: nat, n: nat, unsignedData: bool, high: seq<Byte>)
    requires n > 1 && c < |s| && s[c]
    ensures Extended(Decompressed(s, c, n, unsignedData), high)
         == Extended(Decompressed(s, c + 1, n - 1, unsignedData), [ByteMatch(unsignedData)] + high)
  {
    var m := ByteMatch(unsignedData);
    match Decompressed(s, c + 1, n - 1, unsignedData)
    case None =>
    case Some((low, next)) => assert (low + [m]) + high == low + ([m] + high);
  }
}
