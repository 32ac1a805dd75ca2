/** The bit stream as a sequence of bits is what its array of bytes shows, over any calls. */
module BitRefinement {
  import opened BitBuffers
  import opened BitCodes
  import opened BitStreams
  import opened Options
  import opened SuffixOrder

  /** The fields of BitStreams.BitStream. */
  datatype Stream = Stream(bits: seq<bool>, used: nat, readOffset: nat)

  /** The first n bits of whole bytes and a last one that is aligned right. */
  function BitsOf(bytes: seq<Byte>, n: nat): (b: seq<bool>)
    requires n <= 8 * |bytes|
    ensures |b| == n
  {
    ByteBits(bytes[..n / 8]) + if n % 8 == 0 then [] else Bits(bytes[n / 8], n % 8)
  }

  /** What BitStreams.BitStream asks of its callers. */
  predicate Allowed(st: Stream, call: Call) {
    match call
    case Put(input, n, right) =>
      && n <= 8 * |input| && (right || n % 8 == 0)
      && (st.used == |st.bits| || (st.used < |st.bits| && st.used % 8 == 0 && n % 8 == 0))
    case Get(n, right) => right || n % 8 == 0
    case AlignWrite => st.used == |st.bits|
    case SetWrite(offset) => offset <= |st.bits|
    case _ => true
  }

  /** What its methods do to its fields. */
  function After(st: Stream, call: Call): Stream
    requires Allowed(st, call)
  {
    match call
    case Put(input, n, _) => st.(bits := Over(st.bits, st.used, BitsOf(input, n)), used := st.used + n)
    case Get(n, _) => if Answer(st, n).Some? then st.(readOffset := st.readOffset + n) else st
    case AlignWrite => st.(bits := st.bits + Padded(st.used), used := st.used + Padding(st.used))
    case AlignRead => st.(readOffset := st.readOffset + Padding(st.readOffset))
    case SetWrite(offset) => st.(used := offset)
    case Ignore(n) => st.(readOffset := st.readOffset + n)
  }

  /** The bits that a Get is answered with. */
  function Answer(st: Stream, n: nat): Option<seq<bool>> {
    if 0 < n && st.readOffset + n <= st.used <= |st.bits| then Some(st.bits[st.readOffset..st.readOffset + n])
    else None
  }

  /** The bytes hold the bits, and are clear behind them. */
  ghost predicate Holding(d: seq<Byte>, bits: seq<bool>) {
    |bits| <= 8 * |d| && ByteBits(d)[..|bits|] == bits && Clear(d, |bits|)
  }

  /** The buffer shows the stream. */
  ghost predicate Shows(s: Buffer, st: Stream) {
    s.used == st.used <= |st.bits| && s.readOffset == st.readOffset && Holding(s.data, st.bits)
  }

  // ---------------------------------------------------------------- writing

  lemma AppendsBits(was: seq<Byte>, now: seq<Byte>, u: nat, input: seq<Byte>, n: nat, right: bool, end: nat)
    requires Wrote(was, now, u, input, n, right) && Clear(was, u) && end == u + n && (right || n % 8 == 0)
    ensures ByteBits(now)[..end] == ByteBits(was)[..u] + BitsOf(input, n)
  {
    WriteAppends(was, now, u, input, n, right, end);
    HeldBitsAre(input, n, right);
  }

  lemma ReplacesBits(was: seq<Byte>, now: seq<Byte>, u: nat, input: seq<Byte>, n: nat, right: bool, end: nat)
    requires Wrote(was, now, u, input, n, right) && u % 8 == 0 && n % 8 == 0 && end == u + n <= 8 * |was|
    ensures ByteBits(now)[..8 * |was|] == ByteBits(was)[..u] + BitsOf(input, n) + ByteBits(was)[end..]
  {
    WriteReplaces(was, now, u, input, n, right, end);
    HeldBitsAre(input, n, right);
  }

  lemma BehindAligned(was: seq<Byte>, now: seq<Byte>, u: nat, input: seq<Byte>, n: nat, right: bool, e: nat)
    requires Wrote(was, now, u, input, n, right) && u + n == 8 * e
    ensures forall i :: e <= i < |was| ==> now[i] == was[i]
  {
  }

  lemma AlignedWithin(was: seq<Byte>, now: seq<Byte>, u: nat, input: seq<Byte>, n: nat, right: bool, end: nat)
    requires Wrote(was, now, u, input, n, right) && u % 8 == 0 && n % 8 == 0 && end == u + n
    ensures Clear(was, u) && Clear(now, end)
  {
    AlignedClear(was, u);
    AlignedClear(now, end);
  }

  lemma PrefixOf(a: seq<bool>, bits: seq<bool>, u: nat)
    requires u <= |bits| <= |a| && a[..|bits|] == bits
    ensures a[..u] == bits[..u]
  {
    assert a[..|bits|][..u] == a[..u];
  }

  lemma PutAtEnd(was: seq<Byte>, u: nat, bits: seq<bool>, input: seq<Byte>, n: nat, right: bool, now: seq<Byte>,
                 end: nat)
    requires u == |bits| <= 8 * |was| && ByteBits(was)[..u] == bits && Clear(was, u)
    requires Wrote(was, now, u, input, n, right) && (right || n % 8 == 0) && end == u + n
    ensures ByteBits(now)[..end] == bits + BitsOf(input, n) && Clear(now, end)
  {
    AppendsBits(was, now, u, input, n, right, end);
    RightStaysClear(was, now, u, input, n, right, end);
  }

  /** Whole bytes written over the end of the bits, or up to it. */
  lemma PutAcross(was: seq<Byte>, u: nat, bits: seq<bool>, input: seq<Byte>, n: nat, right: bool, now: seq<Byte>,
                  end: nat)
    requires u <= |bits| <= 8 * |was| && ByteBits(was)[..|bits|] == bits && u % 8 == 0 && n % 8 == 0
    requires Wrote(was, now, u, input, n, right) && end == u + n && |bits| <= end
    ensures ByteBits(now)[..end] == bits[..u] + BitsOf(input, n) && Clear(now, end)
  {
    AlignedWithin(was, now, u, input, n, right, end);
    AppendsBits(was, now, u, input, n, right, end);
    PrefixOf(ByteBits(was), bits, u);
  }

  /** Whole bytes written inside the bits. */
  lemma PutInside(was: seq<Byte>, u: nat, bits: seq<bool>, input: seq<Byte>, n: nat, right: bool, now: seq<Byte>,
                  end: nat)
    requires u <= |bits| <= 8 * |was| && ByteBits(was)[..|bits|] == bits && u % 8 == 0 && n % 8 == 0
    requires Wrote(was, now, u, input, n, right) && end == u + n && end < |bits|
    ensures ByteBits(now)[..|bits|] == bits[..u] + BitsOf(input, n) + bits[end..]
  {
    ReplacesBits(was, now, u, input, n, right, end);
    PrefixOver(ByteBits(now), ByteBits(was), bits, u, BitsOf(input, n), end);
  }

  lemma InsideClear(was: seq<Byte>, u: nat, input: seq<Byte>, n: nat, right: bool, now: seq<Byte>, e: nat, k: nat)
    requires Wrote(was, now, u, input, n, right) && u + n == 8 * e <= k && Clear(was, k)
    ensures Clear(now, k)
  {
    BehindAligned(was, now, u, input, n, right, e);
    StaysClearBehind(was, now, k, e);
  }

  lemma PrefixOver(now: seq<bool>, was: seq<bool>, bits: seq<bool>, u: nat, b: seq<bool>, end: nat)
    requires u <= end == u + |b| <= |bits| <= |was| <= |now| && was[..|bits|] == bits
    requires now[..|was|] == was[..u] + b + was[end..]
    ensures now[..|bits|] == bits[..u] + b + bits[end..]
  {
    assert was[..u] == bits[..u];
    assert was[end..][..|bits| - end] == bits[end..];
    assert now[..|bits|] == now[..|was|][..|bits|];
  }

  lemma StaysClearBehind(was: seq<Byte>, now: seq<Byte>, k: nat, e: nat)
    requires Clear(was, k) && |was| <= |now| && 8 * e <= k
    requires forall i :: e <= i < |was| ==> now[i] == was[i]
    ensures Clear(now, k)
  {
    forall t | k <= t < 8 * Bytes(k)
      ensures !At(now, t)
    {
      assert t / 8 >= e;
      assert At(now, t) == At(was, t);
    }
  }

  lemma OverParts(bits: seq<bool>, u: nat, b: seq<bool>, end: nat)
    requires u <= |bits| && end == u + |b|
    ensures |bits| <= end ==> Over(bits, u, b) == bits[..u] + b && |Over(bits, u, b)| == end
    ensures u == |bits| ==> Over(bits, u, b) == bits + b
    ensures end < |bits| ==> Over(bits, u, b) == bits[..u] + b + bits[end..] && |Over(bits, u, b)| == |bits|
  {
  }

  lemma HoldingSame(d: seq<Byte>, a: seq<bool>, b: seq<bool>, k: nat)
    requires k == |a| <= 8 * |d| && ByteBits(d)[..k] == a && Clear(d, k) && b == a
    ensures Holding(d, b)
  {
  }

  lemma PutBits(was: seq<Byte>, u: nat, bits: seq<bool>, input: seq<Byte>, n: nat, right: bool, now: seq<Byte>,
                after: seq<bool>, end: nat)
    requires Holding(was, bits) && Wrote(was, now, u, input, n, right) && (right || n % 8 == 0) && end == u + n
    requires u == |bits| || (u < |bits| && u % 8 == 0 && n % 8 == 0)
    requires after == Over(bits, u, BitsOf(input, n))
    ensures Holding(now, after) && end <= |after|
  {
    OverParts(bits, u, BitsOf(input, n), end);
    if u == |bits| {
      PutAtEnd(was, u, bits, input, n, right, now, end);
      HoldingSame(now, bits + BitsOf(input, n), after, end);
    } else if |bits| <= end {
      PutAcross(was, u, bits, input, n, right, now, end);
      HoldingSame(now, bits[..u] + BitsOf(input, n), after, end);
    } else {
      PutInside(was, u, bits, input, n, right, now, end);
      InsideClear(was, u, input, n, right, now, end / 8, |bits|);
      HoldingSame(now, bits[..u] + BitsOf(input, n) + bits[end..], after, |bits|);
    }
  }

  lemma PutShown(s: Buffer, st: Stream, input: seq<Byte>, n: nat, right: bool, t: Buffer)
    requires Shows(s, st) && Allowed(st, Put(input, n, right)) && Does(s, Put(input, n, right), [], [], t)
    ensures Shows(t, After(st, Put(input, n, right)))
  {
    PutBits(s.data, s.used, st.bits, input, n, right, t.data, After(st, Put(input, n, right)).bits, s.used + n);
  }

  /** The bits passed over by aligning are those that are clear. */
  lemma AlignShown(s: Buffer, st: Stream, t: Buffer)
    requires Shows(s, st) && Allowed(st, AlignWrite) && Does(s, AlignWrite, [], [], t)
    ensures Shows(t, After(st, AlignWrite))
  {
    var u := s.used;
    var end := u + Padding(u);
    assert end == 8 * Bytes(u);
    forall k | u <= k < end
      ensures !ByteBits(s.data)[k]
    {
      ByteBitsAt(s.data, k);
    }
    assert ByteBits(s.data)[..end] == st.bits + Padded(u);
    AlignedClear(s.data, end);
  }

  // ---------------------------------------------------------------- reading

  /** A Get gives the bits of the answer, and the number or the bytes that the stream reads there. */
  ghost predicate Answers(st: Stream, n: nat, right: bool, was: seq<Byte>, out: seq<Byte>) {
    match Answer(st, n)
    case None => out == was
    case Some(b) =>
      var bits, c, end: nat := st.bits[..st.used], st.readOffset, st.readOffset + n;
      && n <= 8 * |out| && |out| == |was| && BitsOf(out, n) == b
      && (n % 8 == 0 ==> ReadBytes(bits, c, n / 8) == Some((out[..n / 8], end)))
      && (right && n <= 8 ==> var x: nat := out[0]; ReadNumber(bits, c, n) == Some((x, end)))
      && (forall i :: Bytes(n) <= i < |out| ==> out[i] == was[i])
  }

  lemma GetBits(s: Buffer, st: Stream, n: nat, right: bool, was: seq<Byte>, out: seq<Byte>)
    requires Shows(s, st) && Answer(st, n).Some? && (right || n % 8 == 0)
    requires Took(s.data, s.readOffset, was, out, n, right)
    ensures BitsOf(out, n) == Answer(st, n).value
  {
    var b := Answer(st, n).value;
    forall k | 0 <= k < n
      ensures HeldBits(out, n, right)[k] == b[k]
    {
      BitShown(s.data, st.bits, s.readOffset + k);
      assert Held(out, n, right, k) == At(s.data, s.readOffset + k);
    }
    assert HeldBits(out, n, right) == b;
    HeldBitsAre(out, n, right);
  }

  lemma BitShown(d: seq<Byte>, bits: seq<bool>, t: nat)
    requires Holding(d, bits) && t < |bits|
    ensures At(d, t) == bits[t]
  {
    ByteBitsAt(d, t);
    assert ByteBits(d)[..|bits|][t] == bits[t];
  }

  lemma ReadsBytes(s: seq<bool>, c: nat, bytes: seq<Byte>, end: nat)
    requires end == c + 8 * |bytes| <= |s| && s[c..end] == ByteBits(bytes)
    ensures ReadBytes(s, c, |bytes|) == Some((bytes, end))
  {
    forall i | 0 <= i < |ByteBits(bytes)|
      ensures s[c + i] == ByteBits(bytes)[i]
    {
      assert s[c..end][i] == s[c + i];
    }
    BytesRoundTrip(s, c, bytes, end);
  }

  lemma ReadsNumber(s: seq<bool>, c: nat, x: nat, n: nat, end: nat)
    requires end == c + n <= |s| && s[c..end] == Bits(x, n) && x < Pow2(n)
    ensures ReadNumber(s, c, n) == Some((x, end))
  {
    NumberBits(x, n);
  }

  /** Up to eight bits aligned right are the first byte of the output. */
  lemma FirstByte(out: seq<Byte>, n: nat)
    requires 0 < n <= 8 && n <= 8 * |out| && (n < 8 ==> out[0] < Pow2(n))
    ensures BitsOf(out, n) == Bits(out[0], n) && out[0] < Pow2(n)
  {
    Powers();
    if n == 8 {
      assert out[..1] == [out[0]];
      assert ByteBits([out[0]]) == Bits(out[0], 8) + ByteBits([out[0]][1..]);
    }
  }

  lemma NumberThere(bits: seq<bool>, c: nat, out: seq<Byte>, n: nat, end: nat)
    requires 0 < n <= 8 && n <= 8 * |out| && (n < 8 ==> out[0] < Pow2(n))
    requires end == c + n <= |bits| && bits[c..end] == BitsOf(out, n)
    ensures var x: nat := out[0]; ReadNumber(bits, c, n) == Some((x, end))
  {
    FirstByte(out, n);
    ReadsNumber(bits, c, out[0], n, end);
  }

  lemma StillThere(bits: seq<bool>, used: nat, c: nat, end: nat)
    requires c <= end <= used <= |bits|
    ensures bits[..used][c..end] == bits[c..end]
  {
  }

  lemma GetAnswered(s: Buffer, st: Stream, n: nat, right: bool, was: seq<Byte>, out: seq<Byte>, t: Buffer)
    requires Shows(s, st) && Allowed(st, Get(n, right)) && Does(s, Get(n, right), was, out, t)
    ensures Answers(st, n, right, was, out)
  {
    if Answer(st, n).Some? {
      var bits, c, end := st.bits[..st.used], st.readOffset, st.readOffset + n;
      GetBits(s, st, n, right, was, out);
      StillThere(st.bits, st.used, c, end);
      if n % 8 == 0 {
        assert BitsOf(out, n) == ByteBits(out[..n / 8]);
        ReadsBytes(bits, c, out[..n / 8], end);
      }
      if right && n <= 8 {
        NumberThere(bits, c, out, n, end);
      }
    }
  }

  // ---------------------------------------------------------------- any calls

  lemma CallShown(s: Buffer, st: Stream, call: Call, was: seq<Byte>, out: seq<Byte>, t: Buffer)
    requires Shows(s, st) && Allowed(st, call) && Does(s, call, was, out, t)
    ensures Shows(t, After(st, call))
    ensures call.Get? ==> Answers(st, call.n, call.right, was, out)
  {
    match call
    case Put(input, n, right) => PutShown(s, st, input, n, right, t);
    case Get(n, right) => GetAnswered(s, st, n, right, was, out, t);
    case AlignWrite => AlignShown(s, st, t);
    case AlignRead =>
    case SetWrite(offset) =>
    case Ignore(n) =>
  }

  /** A call with the caller's array before and after it. */
  datatype Event = Event(call: Call, was: seq<Byte>, out: seq<Byte>)

  /** The stream allows all of the calls, one after the other. */
  predicate AllAllowed(st: Stream, events: seq<Event>)
    decreases |events|
  {
    events == [] || (Allowed(st, events[0].call) && AllAllowed(After(st, events[0].call), events[1..]))
  }

  function AfterAll(st: Stream, events: seq<Event>): Stream
    requires AllAllowed(st, events)
    decreases |events|
  {
    if events == [] then st else AfterAll(After(st, events[0].call), events[1..])
  }

  /** The stream answers all of the Gets among the calls. */
  ghost predicate AllAnswered(st: Stream, events: seq<Event>)
    requires AllAllowed(st, events)
    decreases |events|
  {
    events == []
    || (&& (events[0].call.Get? ==>
              Answers(st, events[0].call.n, events[0].call.right, events[0].was, events[0].out))
        && AllAnswered(After(st, events[0].call), events[1..]))
  }

  /** The states that a buffer goes through. */
  ghost predicate Goes(states: seq<Buffer>, events: seq<Event>) {
    && |states| == |events| + 1
    && forall i :: 0 <= i < |events| ==>
         Does(states[i], events[i].call, events[i].was, events[i].out, states[i + 1])
  }

  /** Over any calls that the stream allows, the buffer goes on to show the bits of the stream, and what
      is read from the buffer is what is read from the bits. */
  lemma {:induction false} RunShown(states: seq<Buffer>, events: seq<Event>, st: Stream)
    requires Goes(states, events) && Shows(states[0], st) && AllAllowed(st, events)
    ensures Shows(states[|events|], AfterAll(st, events)) && AllAnswered(st, events)
    decreases |events|
  {
    if events != [] {
      CallShown(states[0], st, events[0].call, events[0].was, events[0].out, states[1]);
      assert Goes(states[1..], events[1..]) by {
        forall i | 0 <= i < |events[1..]|
          ensures Does(states[1..][i], events[1..][i].call, events[1..][i].was, events[1..][i].out, states[1..][i + 1])
        {
          assert events[1..][i] == events[i + 1];
        }
      }
      RunShown(states[1..], events[1..], After(st, events[0].call));
    }
  }

  /** A buffer that has just been made shows no bits. */
  lemma NewShown(data: seq<Byte>)
    ensures Shows(Buffer(data, 0, 0), Stream([], 0, 0))
  {
    AlignedClear(data, 0);
  }
}
