/** The bytes behind a bit stream: bits are written and read at any cursor by shifting them into place. */
module BitBuffers {
  import opened BitCodes
  import opened SuffixOrder
  import BitStreams

  // ---------------------------------------------------------------- one byte

  /** Bit k of a byte, the most significant first. */
  function Bit(x: Byte, k: nat): bool
    requires k < 8
  {
    Bits(x, 8)[k]
  }

  function Shl(x: Byte, m: nat): Byte
    decreases m
  {
    if m == 0 then x else Shl(2 * x % 256, m - 1)
  }

  function Shr(x: Byte, m: nat): Byte {
    if m == 0 then x else Shr(x / 2, m - 1)
  }

  function OrWide(x: nat, y: nat, n: nat): (r: nat)
    ensures r < Pow2(n)
  {
    if n == 0 then 0 else 2 * OrWide(x / 2, y / 2, n - 1) + (if x % 2 == 1 || y % 2 == 1 then 1 else 0)
  }

  function Or(x: Byte, y: Byte): Byte {
    Powers();
    OrWide(x, y, 8)
  }

  lemma {:induction false} LowerBits(x: nat, n: nat, k: nat)
    requires 0 < k < n
    ensures Bits(x, n)[k] == Bits(x, n - 1)[k - 1]
    decreases n
  {
    if k < n - 1 {
      LowerBits(x / 2, n - 1, k);
    }
  }

  lemma {:induction false} TopBit(x: nat, n: nat)
    requires n > 0 && x < Pow2(n - 1)
    ensures !Bits(x, n)[0]
    decreases n
  {
    if n > 1 {
      TopBit(x / 2, n - 1);
    }
  }

  lemma {:induction false} WrappedBits(x: nat, n: nat)
    ensures Bits(x + Pow2(n), n) == Bits(x, n)
    decreases n
  {
    if n > 0 {
      WrappedBits(x / 2, n - 1);
      assert (x + Pow2(n)) / 2 == x / 2 + Pow2(n - 1);
    }
  }

  /** The bits of a number in terms of its half. */
  lemma HalfAndBit(x: nat, h: nat, b: bool, n: nat, k: nat)
    requires x == 2 * h + (if b then 1 else 0) && k < n
    ensures Bits(x, n)[k] == if k < n - 1 then Bits(h, n - 1)[k] else b
  {
    assert x / 2 == h && (x % 2 == 1) == b;
  }

  lemma {:induction false} OrWideBits(x: nat, y: nat, n: nat, k: nat)
    requires k < n
    ensures Bits(OrWide(x, y, n), n)[k] == (Bits(x, n)[k] || Bits(y, n)[k])
    decreases n
  {
    HalfAndBit(OrWide(x, y, n), OrWide(x / 2, y / 2, n - 1), x % 2 == 1 || y % 2 == 1, n, k);
    HalfAndBit(x, x / 2, x % 2 == 1, n, k);
    HalfAndBit(y, y / 2, y % 2 == 1, n, k);
    if k < n - 1 {
      OrWideBits(x / 2, y / 2, n - 1, k);
    }
  }

  lemma HalvedBit(x: Byte, k: nat)
    requires k < 8
    ensures Bit(x / 2, k) == (k > 0 && Bit(x, k - 1))
  {
    Powers();
    if k == 0 {
      TopBit(x / 2, 8);
    } else {
      LowerBits(x / 2, 8, k);
      assert Bits(x, 8) == Bits(x / 2, 7) + [x % 2 == 1];
    }
  }

  /** Doubling moves the lower bits up by one. */
  lemma DoubledLower(x: nat, low: nat, n: nat, k: nat)
    requires k < n && (x == low || x == low + Pow2(n))
    ensures Bits(2 * low, n + 1)[k] == Bits(x, n + 1)[k + 1]
  {
    HalfAndBit(2 * low, low, false, n + 1, k);
    WrappedBits(low, n);
    LowerBits(x, n + 1, k + 1);
  }

  lemma DoubledBit(x: Byte, k: nat)
    requires k < 8
    ensures Bit(2 * x % 256, k) == (k < 7 && Bit(x, k + 1))
  {
    var low := x % 128;
    assert 2 * x % 256 == 2 * low;
    if k < 7 {
      Powers();
      DoubledLower(x, low, 7, k);
    } else {
      HalfAndBit(2 * low, low, false, 8, k);
    }
  }

  lemma {:induction false} ShlBit(x: Byte, m: nat, k: nat)
    requires k < 8
    ensures Bit(Shl(x, m), k) == (k + m < 8 && Bit(x, k + m))
    decreases m
  {
    if m > 0 {
      ShlBit(2 * x % 256, m - 1, k);
      if k + m - 1 < 8 {
        DoubledBit(x, k + m - 1);
      }
    }
  }

  lemma {:induction false} ShrBit(x: Byte, m: nat, k: nat)
    requires k < 8
    ensures Bit(Shr(x, m), k) == (k >= m && Bit(x, k - m))
    decreases m
  {
    if m > 0 {
      ShrBit(x / 2, m - 1, k);
      if k >= m - 1 {
        HalvedBit(x, k - (m - 1));
      }
    }
  }

  lemma OrBit(x: Byte, y: Byte, k: nat)
    requires k < 8
    ensures Bit(Or(x, y), k) == (Bit(x, k) || Bit(y, k))
  {
    OrWideBits(x, y, 8, k);
  }

  /** The low bits of a byte. */
  lemma {:induction false} LowBits(x: nat, n: nat, r: nat, k: nat)
    requires k < r <= n
    ensures Bits(x, r)[k] == Bits(x, n)[n - r + k]
    decreases n
  {
    if r < n {
      LowerBits(x, n, n - r + k);
      LowBits(x, n - 1, r, k);
    }
  }

  lemma {:induction false} ShrFits(x: Byte, n: nat, m: nat)
    requires x < Pow2(n) && m <= n
    ensures Shr(x, m) < Pow2(n - m)
    decreases m
  {
    if m > 0 {
      ShrFits(x / 2, n - 1, m - 1);
    }
  }

  // ---------------------------------------------------------------- many bytes

  function Bytes(bits: nat): nat {
    (bits + 7) / 8
  }

  function At(d: seq<Byte>, t: nat): bool
    requires t < 8 * |d|
  {
    Bit(d[t / 8], t % 8)
  }

  /** Bit t of n bits that a caller holds: of a partial last byte the low bits, when aligned right. */
  function Held(bytes: seq<Byte>, n: nat, right: bool, t: nat): bool
    requires t < n <= 8 * |bytes|
  {
    if right && t / 8 == n / 8 then Bits(bytes[t / 8], n % 8)[t % 8] else At(bytes, t)
  }

  /** A bit of the byte that the cursor u has entered: it stays set, because that byte is or-ed. */
  predicate Kept(was: seq<Byte>, u: nat, t: nat)
    requires u <= 8 * |was| && u <= t
  {
    u % 8 != 0 && t / 8 == u / 8 && At(was, t)
  }

  /** What lies behind the n bits in the last byte that is written. */
  predicate Spilt(input: seq<Byte>, n: nat, right: bool, t: nat)
    requires n <= t && n <= 8 * |input|
  {
    !right && t < 8 * Bytes(n) && At(input, t)
  }

  /** The effect of writing n bits of the input at bit u, up to the end of the last byte. */
  predicate WroteBit(was: seq<Byte>, now: seq<Byte>, u: nat, input: seq<Byte>, n: nat, right: bool, t: nat)
    requires u <= 8 * |was| && u + n <= 8 * |now| && n <= 8 * |input| && t < 8 * Bytes(u + n)
  {
    At(now, t)
    == if t < u then At(was, t)
       else if t < u + n then Held(input, n, right, t - u) || Kept(was, u, t)
       else Spilt(input, n, right, t - u) || Kept(was, u, t)
  }

  /** The whole effect. */
  ghost predicate Wrote(was: seq<Byte>, now: seq<Byte>, u: nat, input: seq<Byte>, n: nat, right: bool) {
    && u <= 8 * |was| && |was| <= |now| && u + n <= 8 * |now| && n <= 8 * |input|
    && (forall t :: 0 <= t < 8 * Bytes(u + n) ==> WroteBit(was, now, u, input, n, right, t))
    && (forall i :: Bytes(u + n) <= i < |was| ==> now[i] == was[i])
  }

  /** Bit t of the buffer, if it is in a byte that the n bits at bit c reach into. */
  predicate Seen(data: seq<Byte>, c: nat, n: nat, t: nat)
    requires c + n <= 8 * |data|
  {
    t / 8 < Bytes(c + n) && At(data, t)
  }

  /** The whole effect of reading n bits at bit c of the buffer: they are the n bits that the output holds.
      Behind them a partial byte has zeros in front when it is aligned right; when it is aligned left, what
      follows in the last byte of the buffer that is looked at. */
  ghost predicate Took(data: seq<Byte>, c: nat, was: seq<Byte>, out: seq<Byte>, n: nat, right: bool) {
    && c + n <= 8 * |data| && |out| == |was| && n <= 8 * |out|
    && (forall t :: 0 <= t < n ==> Held(out, n, right, t) == At(data, c + t))
    && (right && n % 8 != 0 ==> out[n / 8] < Pow2(n % 8))
    && (!right ==> forall t :: n <= t < 8 * Bytes(n) ==> At(out, t) == Seen(data, c, n, c + t))
    && (forall i :: Bytes(n) <= i < |out| ==> out[i] == was[i])
  }

  // ---------------------------------------------------------------- byte by byte

  /** Input byte j with its bits on the left. */
  function Left(input: seq<Byte>, n: nat, right: bool, j: nat): Byte
    requires j < |input| && 8 * j < n
  {
    if right && n - 8 * j < 8 then Shl(input[j], 8 - (n - 8 * j)) else input[j]
  }

  /** The byte i places behind the byte of the cursor, once n bits are written at bit m of that byte. */
  function Cell(was: seq<Byte>, q: nat, m: nat, input: seq<Byte>, n: nat, right: bool, i: nat): Byte
    requires m < 8 && n <= 8 * |input| && 8 * i < m + n && (m > 0 ==> q < |was|)
  {
    if m == 0 then Left(input, n, right, i)
    else if i == 0 then if n == 0 then was[q] else Or(was[q], Shr(Left(input, n, right, 0), m))
    else if 8 * i < n then Or(Shl(Left(input, n, right, i - 1), 8 - m), Shr(Left(input, n, right, i), m))
    else Shl(Left(input, n, right, i - 1), 8 - m)
  }

  /** Bit t of the input with its bits on the left. */
  predicate Put(input: seq<Byte>, n: nat, right: bool, t: nat)
    requires n <= 8 * |input|
  {
    t < 8 * Bytes(n) && Bit(Left(input, n, right, t / 8), t % 8)
  }

  lemma PutAt(input: seq<Byte>, n: nat, right: bool, j: nat, k: nat, t: nat)
    requires n <= 8 * |input| && k < 8 && t == 8 * j + k
    ensures Put(input, n, right, t) == (8 * j < n && Bit(Left(input, n, right, j), k))
  {
    assert t / 8 == j && t % 8 == k;
  }

  lemma PutMeans(input: seq<Byte>, n: nat, right: bool, t: nat)
    requires n <= 8 * |input|
    ensures t < n ==> Put(input, n, right, t) == Held(input, n, right, t)
    ensures t >= n ==> Put(input, n, right, t) == Spilt(input, n, right, t)
  {
    var j, k := t / 8, t % 8;
    PutAt(input, n, right, j, k, t);
    if 8 * j < n < 8 * j + 8 {
      assert j == n / 8;
      if right {
        PartialByte(input[j], n % 8, k, 8 - (n - 8 * j));
      }
    }
  }

  lemma PartialByte(x: Byte, r: nat, k: nat, up: nat)
    requires 0 < r < 8 && k < 8 && up == 8 - r
    ensures Bit(Shl(x, up), k) == (k < r && Bits(x, r)[k])
  {
    ShlBit(x, up, k);
    if k < r {
      LowBit(x, r, k, k + up);
    }
  }

  lemma LowBit(x: Byte, r: nat, k: nat, j: nat)
    requires k < r <= 8 && j == k + (8 - r)
    ensures Bits(x, r)[k] == Bit(x, j)
  {
    LowBits(x, 8, r, k);
  }

  /** Bits of a byte that has been or-ed into another from bit m on. */
  lemma OredBit(high: Byte, x: Byte, m: nat, k: nat)
    requires k < 8
    ensures Bit(Or(high, Shr(x, m)), k) == (Bit(high, k) || (k >= m && Bit(x, k - m)))
  {
    ShrBit(x, m, k);
    OrBit(high, Shr(x, m), k);
  }

  /** The cell of the cursor: what was there, and the start of the first input byte. */
  lemma FirstCellBit(was: seq<Byte>, q: nat, m: nat, input: seq<Byte>, n: nat, right: bool, k: nat)
    requires 0 < m < 8 && n <= 8 * |input| && q < |was| && k < 8
    ensures Bit(Cell(was, q, m, input, n, right, 0), k)
         == ((k >= m && Put(input, n, right, k - m)) || Bit(was[q], k))
  {
    if k >= m {
      PutAt(input, n, right, 0, k - m, k - m);
    }
    if n > 0 {
      OredBit(was[q], Left(input, n, right, 0), m, k);
    }
  }

  /** A later cell: the end of one input byte and the start of the next. */
  lemma LaterCellBit(was: seq<Byte>, q: nat, m: nat, input: seq<Byte>, n: nat, right: bool, i: nat, k: nat, t: nat)
    requires 0 < m < 8 && n <= 8 * |input| && 0 < i && 8 * i < m + n && q < |was| && k < 8 && t == 8 * i + k - m
    ensures Bit(Cell(was, q, m, input, n, right, i), k) == Put(input, n, right, t)
  {
    var up := 8 - m;
    ShlBit(Left(input, n, right, i - 1), up, k);
    if k >= m {
      PutAt(input, n, right, i, k - m, t);
    } else {
      PutAt(input, n, right, i - 1, k + up, t);
    }
    if 8 * i < n {
      OredBit(Shl(Left(input, n, right, i - 1), up), Left(input, n, right, i), m, k);
    }
  }

  /** The bits of a cell. */
  lemma CellBit(was: seq<Byte>, q: nat, m: nat, input: seq<Byte>, n: nat, right: bool, i: nat, k: nat)
    requires m < 8 && n <= 8 * |input| && 8 * i < m + n && (m > 0 ==> q < |was|) && k < 8
    ensures Bit(Cell(was, q, m, input, n, right, i), k)
         == ((8 * i + k >= m && Put(input, n, right, 8 * i + k - m)) || (m > 0 && i == 0 && Bit(was[q], k)))
  {
    if m == 0 {
      PutAt(input, n, right, i, k, 8 * i + k);
    } else if i == 0 {
      FirstCellBit(was, q, m, input, n, right, k);
    } else {
      LaterCellBit(was, q, m, input, n, right, i, k, 8 * i + k - m);
    }
  }

  lemma CellAt(was: seq<Byte>, now: seq<Byte>, u: nat, input: seq<Byte>, n: nat, right: bool, t: nat)
    requires u <= 8 * |was| && u + n <= 8 * |now| && n <= 8 * |input| && u / 8 <= t / 8 < Bytes(u + n)
    requires now[t / 8] == Cell(was, u / 8, u % 8, input, n, right, t / 8 - u / 8)
    ensures At(now, t) == ((t >= u && Put(input, n, right, t - u)) || (u % 8 != 0 && t / 8 == u / 8 && At(was, t)))
  {
    var q, m, i, k := u / 8, u % 8, t / 8 - u / 8, t % 8;
    CellBit(was, q, m, input, n, right, i, k);
    assert 8 * i + k - m == t - u;
  }

  /** Bytes that are cells make up a write. */
  lemma CellsWrote(was: seq<Byte>, now: seq<Byte>, u: nat, input: seq<Byte>, n: nat, right: bool)
    requires u <= 8 * |was| && |was| <= |now| && u + n <= 8 * |now| && n <= 8 * |input|
    requires forall i :: 0 <= i < u / 8 ==> now[i] == was[i]
    requires forall i :: u / 8 <= i < Bytes(u + n) ==> now[i] == Cell(was, u / 8, u % 8, input, n, right, i - u / 8)
    requires forall i :: Bytes(u + n) <= i < |was| ==> now[i] == was[i]
    ensures Wrote(was, now, u, input, n, right)
  {
    forall t | 0 <= t < 8 * Bytes(u + n)
      ensures WroteBit(was, now, u, input, n, right, t)
    {
      if t / 8 >= u / 8 {
        CellAt(was, now, u, input, n, right, t);
      }
      if t >= u {
        PutMeans(input, n, right, t - u);
      }
    }
  }

  // ---------------------------------------------------------------- reading

  /** Output byte j with its bits on the left: the end of one byte of the buffer and the start of the next. */
  function Gathered(data: seq<Byte>, q: nat, m: nat, n: nat, j: nat): Byte
    requires m < 8 && 8 * j < n && 8 * q + m + n <= 8 * |data|
  {
    var high := Or(0, Shl(data[q + j], m));
    if m > 0 && n - 8 * j > 8 - m then Or(high, Shr(data[q + j + 1], 8 - m)) else high
  }

  function Taken(data: seq<Byte>, q: nat, m: nat, n: nat, right: bool, j: nat): Byte
    requires m < 8 && 8 * j < n && 8 * q + m + n <= 8 * |data|
  {
    var x := Gathered(data, q, m, n, j);
    if right && n - 8 * j < 8 then Shr(x, 8 - (n - 8 * j)) else x
  }

  lemma ZeroBit(k: nat)
    requires k < 8
    ensures !Bit(0, k)
  {
    ShrBit(0, 8, k);
    ShrZero(8);
  }

  lemma {:induction false} ShrZero(m: nat)
    ensures Shr(0, m) == 0
    decreases m
  {
    if m > 0 {
      ShrZero(m - 1);
    }
  }

  lemma FirstHalf(x: Byte, m: nat, k: nat)
    requires k < 8
    ensures Bit(Or(0, Shl(x, m)), k) == (k + m < 8 && Bit(x, k + m))
  {
    ZeroBit(k);
    ShlBit(x, m, k);
    OrBit(0, Shl(x, m), k);
  }

  lemma GatheredBit(data: seq<Byte>, q: nat, m: nat, n: nat, j: nat, k: nat, c: nat, t: nat)
    requires m < 8 && 8 * j < n && c == 8 * q + m && c + n <= 8 * |data| && k < 8 && t == c + 8 * j + k
    ensures Bit(Gathered(data, q, m, n, j), k) == Seen(data, c, n, t)
  {
    FirstHalf(data[q + j], m, k);
    if m > 0 && n - 8 * j > 8 - m {
      OredBit(Or(0, Shl(data[q + j], m)), data[q + j + 1], 8 - m, k);
    }
    if k + m < 8 {
      assert t / 8 == q + j && t % 8 == k + m;
    } else {
      assert t / 8 == q + j + 1 && t % 8 == k + m - 8;
    }
  }

  lemma TakenHeld(data: seq<Byte>, c: nat, out: seq<Byte>, n: nat, right: bool, t: nat)
    requires c + n <= 8 * |data| && n <= 8 * |out| && t < n
    requires out[t / 8] == Taken(data, c / 8, c % 8, n, right, t / 8)
    ensures Held(out, n, right, t) == At(data, c + t)
  {
    var j, k := t / 8, t % 8;
    GatheredBit(data, c / 8, c % 8, n, j, k, c, c + t);
    InReach(c, n, t);
    if right && n - 8 * j < 8 {
      ShiftedBack(Gathered(data, c / 8, c % 8, n, j), n - 8 * j, k);
    }
  }

  lemma TakenSeen(data: seq<Byte>, c: nat, out: seq<Byte>, n: nat, t: nat)
    requires c + n <= 8 * |data| && n <= 8 * |out| && t < 8 * Bytes(n)
    requires out[t / 8] == Taken(data, c / 8, c % 8, n, false, t / 8)
    ensures At(out, t) == Seen(data, c, n, c + t)
  {
    GatheredBit(data, c / 8, c % 8, n, t / 8, t % 8, c, c + t);
  }

  lemma InReach(c: nat, n: nat, t: nat)
    requires t < n
    ensures (c + t) / 8 < Bytes(c + n)
  {
  }

  lemma ShiftedBack(x: Byte, r: nat, k: nat)
    requires k < r <= 8
    ensures Bits(Shr(x, 8 - r), r)[k] == Bit(x, k)
  {
    var down := 8 - r;
    ShrBit(x, down, k + down);
    LowBit(Shr(x, down), r, k, k + down);
  }

  lemma ReadTook(data: seq<Byte>, c: nat, was: seq<Byte>, out: seq<Byte>, n: nat, right: bool)
    requires c + n <= 8 * |data| && |out| == |was| && n <= 8 * |out|
    requires forall j :: 0 <= j < Bytes(n) ==> out[j] == Taken(data, c / 8, c % 8, n, right, j)
    requires forall i :: Bytes(n) <= i < |out| ==> out[i] == was[i]
    ensures Took(data, c, was, out, n, right)
  {
    forall t | 0 <= t < n
      ensures Held(out, n, right, t) == At(data, c + t)
    {
      TakenHeld(data, c, out, n, right, t);
    }
    if !right {
      forall t | n <= t < 8 * Bytes(n)
        ensures At(out, t) == Seen(data, c, n, c + t)
      {
        TakenSeen(data, c, out, n, t);
      }
    }
    if right && n % 8 != 0 {
      var j := n / 8;
      Powers();
      ShrFits(Gathered(data, c / 8, c % 8, n, j), 8, 8 - n % 8);
    }
  }

  lemma AlignedTaken(data: seq<Byte>, q: nat, n: nat, right: bool)
    requires n % 8 == 0 && 8 * q + n <= 8 * |data|
    ensures forall j :: 0 <= j < n / 8 ==> Taken(data, q, 0, n, right, j) == data[q + j]
  {
    forall j | 0 <= j < n / 8
      ensures Taken(data, q, 0, n, right, j) == data[q + j]
    {
      OrZero(data[q + j]);
    }
  }

  lemma OrZero(x: Byte)
    ensures Or(0, x) == x
  {
    forall k | 0 <= k < 8
      ensures Bit(Or(0, x), k) == Bit(x, k)
    {
      ZeroBit(k);
      OrBit(0, x, k);
    }
    SameBits(Or(0, x), x);
  }

  lemma SameBits(x: Byte, y: Byte)
    requires forall k :: 0 <= k < 8 ==> Bit(x, k) == Bit(y, k)
    ensures x == y
  {
    forall k | 0 <= k < 8
      ensures Bits(x, 8)[k] == Bits(y, 8)[k]
    {
      assert Bit(x, k) == Bit(y, k);
    }
    assert Bits(x, 8) == Bits(y, 8);
    Powers();
    NumberBits(x, 8);
    NumberBits(y, 8);
  }

  // ---------------------------------------------------------------- the loops

  /** The buffer with one input byte shifted in at bit m of byte a; `left` bits are still to be written. */
  function ShiftedIn(now: seq<Byte>, a: nat, m: nat, x: Byte, left: nat): (next: seq<Byte>)
    requires m < 8 && left > 0 && 8 * a + m + left <= 8 * |now|
    ensures |next| == |now|
  {
    if m == 0 then now[a := x]
    else
      var first := now[a := Or(now[a], Shr(x, m))];
      if 8 - m < left then first[a + 1 := Shl(x, 8 - m)] else first
  }

  method ShiftByteIn(data: array<Byte>, u: nat, input: array<Byte>, n: nat, rightAlignedBits: bool, j: nat)
    requires 8 * j < n <= 8 * input.Length && u + n <= 8 * data.Length && input != data
    modifies data
    ensures data[..]
         == ShiftedIn(old(data[..]), u / 8 + j, u % 8, Left(input[..], n, rightAlignedBits, j), n - 8 * j)
  {
    var a, m, left, dataByte := u / 8 + j, u % 8, n - 8 * j, input[j];
    if left < 8 && rightAlignedBits {
      dataByte := Shl(dataByte, 8 - left);
    }
    if m == 0 {
      data[a] := dataByte;
    } else {
      data[a] := Or(data[a], Shr(dataByte, m));
      if 8 - m < left {
        data[a + 1] := Shl(dataByte, 8 - m);
      }
    }
  }

  /** The buffer when j bytes of the input are in. */
  ghost predicate Filled(was: seq<Byte>, now: seq<Byte>, q: nat, m: nat, input: seq<Byte>, n: nat, right: bool,
                         j: nat)
  {
    && m < 8 && 8 * j < n + 8 && n <= 8 * |input|
    && 8 * q + m <= 8 * |was| && |was| <= |now| && 8 * q + m + n <= 8 * |now|
    && (forall b :: 0 <= b < q ==> now[b] == was[b])
    && (forall b :: q <= b < q + j ==> now[b] == Cell(was, q, m, input, n, right, b - q))
    && (m > 0 && j > 0 && 8 * j < m + n ==> now[q + j] == Shl(Left(input, n, right, j - 1), 8 - m))
    && (forall b :: q + j <= b < |was| && (b > q + j || m == 0 || j == 0 || m + n <= 8 * j) ==> now[b] == was[b])
  }

  lemma FilledStep(was: seq<Byte>, now: seq<Byte>, q: nat, m: nat, input: seq<Byte>, n: nat, right: bool, j: nat)
    requires Filled(was, now, q, m, input, n, right, j) && 8 * j < n
    ensures Filled(was, ShiftedIn(now, q + j, m, Left(input, n, right, j), n - 8 * j), q, m, input, n, right, j + 1)
  {
  }

  lemma FilledWrote(was: seq<Byte>, now: seq<Byte>, u: nat, input: seq<Byte>, n: nat, right: bool, j: nat)
    requires Filled(was, now, u / 8, u % 8, input, n, right, j) && n <= 8 * j
    ensures Wrote(was, now, u, input, n, right)
  {
    CellsWrote(was, now, u, input, n, right);
  }

  /** The loop of WriteBits: each input byte goes into two bytes of the buffer. */
  method ShiftIn(data: array<Byte>, u: nat, input: array<Byte>, n: nat, rightAlignedBits: bool, ghost was: seq<Byte>)
    requires u <= 8 * |was| && |was| <= data.Length && data[..|was|] == was
    requires u + n <= 8 * data.Length && n <= 8 * input.Length && input != data
    modifies data
    ensures Wrote(was, data[..], u, input[..], n, rightAlignedBits)
  {
    var j := 0;
    ghost var bytes := input[..];
    while 8 * j < n
      invariant Filled(was, data[..], u / 8, u % 8, bytes, n, rightAlignedBits, j)
    {
      FilledStep(was, data[..], u / 8, u % 8, bytes, n, rightAlignedBits, j);
      ShiftByteIn(data, u, input, n, rightAlignedBits, j);
      j := j + 1;
    }
    FilledWrote(was, data[..], u, bytes, n, rightAlignedBits, j);
  }

  method ShiftByteOut(data: array<Byte>, c: nat, out: array<Byte>, n: nat, alignBitsToRight: bool, offset: nat,
                      ghost bytes: seq<Byte>)
    requires c + n <= 8 * data.Length && n <= 8 * out.Length && 8 * offset < n && out != data && out[offset] == 0
    requires bytes == data[..]
    modifies out
    ensures out[..] == old(out[..])[offset := Taken(bytes, c / 8, c % 8, n, alignBitsToRight, offset)]
  {
    var m, a, left := c % 8, c / 8 + offset, n - 8 * offset;
    out[offset] := Or(out[offset], Shl(data[a], m));
    if m > 0 && left > 8 - m {
      out[offset] := Or(out[offset], Shr(data[a + 1], 8 - m));
    }
    if left < 8 && alignBitsToRight {
      out[offset] := Shr(out[offset], 8 - left);
    }
  }

  /** The output when its first bytes are there. */
  ghost predicate Drawn(bytes: seq<Byte>, c: nat, was: seq<Byte>, out: seq<Byte>, n: nat, right: bool, offset: nat) {
    && c + n <= 8 * |bytes| && |out| == |was| && n <= 8 * |out| && 8 * offset < n + 8
    && (forall i :: 0 <= i < offset ==> out[i] == Taken(bytes, c / 8, c % 8, n, right, i))
    && (forall i :: offset <= i < Bytes(n) ==> out[i] == 0)
    && (forall i :: Bytes(n) <= i < |was| ==> out[i] == was[i])
  }

  lemma DrawnStep(bytes: seq<Byte>, c: nat, was: seq<Byte>, out: seq<Byte>, n: nat, right: bool, offset: nat)
    requires Drawn(bytes, c, was, out, n, right, offset) && 8 * offset < n
    ensures Drawn(bytes, c, was, out[offset := Taken(bytes, c / 8, c % 8, n, right, offset)], n, right, offset + 1)
  {
  }

  lemma DrawnTook(bytes: seq<Byte>, c: nat, was: seq<Byte>, out: seq<Byte>, n: nat, right: bool, offset: nat)
    requires Drawn(bytes, c, was, out, n, right, offset) && n <= 8 * offset
    ensures Took(bytes, c, was, out, n, right)
  {
    ReadTook(bytes, c, was, out, n, right);
  }

  /** The loop of ReadBits: each output byte comes from two bytes of the buffer. */
  method ShiftOut(data: array<Byte>, c: nat, out: array<Byte>, n: nat, alignBitsToRight: bool, ghost bytes: seq<Byte>,
                  ghost was: seq<Byte>)
    requires c + n <= 8 * data.Length && n <= 8 * out.Length && out != data && bytes == data[..] && was == out[..]
    modifies out
    ensures Took(bytes, c, was, out[..], n, alignBitsToRight)
  {
    var offset := 0;
    forall i | 0 <= i < Bytes(n) {
      out[i] := 0;
    }
    while 8 * offset < n
      invariant Drawn(bytes, c, was, out[..], n, alignBitsToRight, offset)
    {
      DrawnStep(bytes, c, was, out[..], n, alignBitsToRight, offset);
      ShiftByteOut(data, c, out, n, alignBitsToRight, offset, bytes);
      offset := offset + 1;
    }
    DrawnTook(bytes, c, was, out[..], n, alignBitsToRight, offset);
  }

  // ---------------------------------------------------------------- the buffer

  /** The buffer's fields. */
  datatype Buffer = Buffer(data: seq<Byte>, used: nat, readOffset: nat)

  /** A call of one of its methods. */
  datatype Call =
    | Put(input: seq<Byte>, n: nat, right: bool)
    | Get(n: nat, right: bool)
    | AlignWrite
    | AlignRead
    | SetWrite(offset: nat)
    | Ignore(n: nat)

  /** What a call does to the fields, and a Get to the caller's array as well. */
  ghost predicate Does(s: Buffer, call: Call, was: seq<Byte>, out: seq<Byte>, t: Buffer) {
    match call
    case Put(input, n, right) =>
      Wrote(s.data, t.data, s.used, input, n, right) && t.used == s.used + n && t.readOffset == s.readOffset
    case Get(n, right) =>
      if n > 0 && s.readOffset + n <= s.used then
        t == s.(readOffset := s.readOffset + n) && Took(s.data, s.readOffset, was, out, n, right)
      else t == s && out == was
    case AlignWrite => t == s.(used := s.used + BitStreams.Padding(s.used))
    case AlignRead => t == s.(readOffset := s.readOffset + BitStreams.Padding(s.readOffset))
    case SetWrite(offset) => t == s.(used := offset)
    case Ignore(n) => t == s.(readOffset := s.readOffset + n)
  }

  class BitBuffer {
    var data: array<Byte>
    var used: nat
    var readOffset: nat

    ghost predicate Valid()
      reads this
    {
      used <= 8 * data.Length
    }

    ghost function State(): Buffer
      reads this, data
    {
      Buffer(data[..], used, readOffset)
    }

    constructor (initialBytes: nat)
      ensures Valid() && fresh(data) && used == 0 && readOffset == 0
    {
      data := new Byte[if initialBytes < 256 then 256 else initialBytes];
      used, readOffset := 0, 0;
    }

    /** Makes room for more bits; new bytes may hold anything. */
    method AddBitsAndReallocate(n: nat)
      requires Valid()
      modifies `data
      ensures Valid() && used + n <= 8 * data.Length && (data == old(data) || fresh(data))
      ensures old(data.Length) <= data.Length && data[..old(data.Length)] == old(data[..])
    {
      if data.Length < Bytes(used + n) {
        var bits := if used + n > 1048576 then used + n + 1048576 else 2 * (used + n);
        var larger := new Byte[Bytes(bits)];
        forall i | 0 <= i < data.Length {
          larger[i] := data[i];
        }
        data := larger;
      }
    }

    method WriteBits(input: array<Byte>, n: nat, rightAlignedBits: bool)
      requires Valid() && n <= 8 * input.Length && input != data
      modifies `data, `used, data
      ensures Valid() && (data == old(data) || fresh(data))
      ensures Does(old(State()), Put(input[..], n, rightAlignedBits), [], [], State())
    {
      ghost var was := data[..];
      AddBitsAndReallocate(n);
      if used % 8 == 0 && n % 8 == 0 {
        forall i | 0 <= i < n / 8 {
          data[used / 8 + i] := input[i];
        }
        CellsWrote(was, data[..], used, input[..], n, rightAlignedBits);
      } else {
        ShiftIn(data, used, input, n, rightAlignedBits, was);
      }
      used := used + n;
    }

    /** Fails, and changes nothing, when there are fewer bits left, or none are asked for. */
    method ReadBits(out: array<Byte>, n: nat, alignBitsToRight: bool) returns (ok: bool)
      requires Valid() && n <= 8 * out.Length && out != data
      modifies `readOffset, out
      ensures ok == (n > 0 && old(readOffset) + n <= used)
      ensures Does(old(State()), Get(n, alignBitsToRight), old(out[..]), out[..], State())
    {
      if n == 0 || readOffset > used || used - readOffset < n {
        return false;
      }
      if readOffset % 8 == 0 && n % 8 == 0 {
        ghost var was := out[..];
        forall i | 0 <= i < n / 8 {
          out[i] := data[readOffset / 8 + i];
        }
        AlignedTaken(data[..], readOffset / 8, n, alignBitsToRight);
        ReadTook(data[..], readOffset, was, out[..], n, alignBitsToRight);
      } else {
        ShiftOut(data, readOffset, out, n, alignBitsToRight, data[..], out[..]);
      }
      readOffset := readOffset + n;
      ok := true;
    }

    /** Write0 and Write1. */
    method WriteBit(bit: bool)
      requires Valid()
      modifies `data, `used, data
      ensures Valid() && (data == old(data) || fresh(data))
      ensures Does(old(State()), Put([if bit then 1 else 0], 1, true), [], [], State())
    {
      ghost var was := data[..];
      AddBitsAndReallocate(1);
      if used % 8 == 0 {
        data[used / 8] := if bit then 0x80 else 0;
      } else if bit {
        data[used / 8] := Or(data[used / 8], Shr(0x80, used % 8));
      }
      BitCell(was, used / 8, used % 8, bit);
      CellsWrote(was, data[..], used, [if bit then 1 else 0], 1, true);
      used := used + 1;
    }

    method AlignWriteToByteBoundary()
      requires Valid()
      modifies `used
      ensures Valid() && Does(old(State()), AlignWrite, [], [], State())
    {
      used := used + BitStreams.Padding(used);
    }

    method AlignReadToByteBoundary()
      modifies `readOffset
      ensures Does(old(State()), AlignRead, [], [], State())
    {
      readOffset := readOffset + BitStreams.Padding(readOffset);
    }

    method SetWriteOffset(offset: nat)
      requires offset <= 8 * data.Length
      modifies `used
      ensures Valid() && Does(old(State()), SetWrite(offset), [], [], State())
    {
      used := offset;
    }

    method IgnoreBits(n: nat)
      modifies `readOffset
      ensures Does(old(State()), Ignore(n), [], [], State())
    {
      readOffset := readOffset + n;
    }
  }

  /** A single bit is a write of one bit. */
  lemma BitCell(was: seq<Byte>, q: nat, m: nat, bit: bool)
    requires m < 8 && (m > 0 ==> q < |was|)
    ensures Cell(was, q, m, [if bit then 1 else 0], 1, true, 0)
         == if m == 0 then (if bit then 0x80 else 0)
            else if bit then Or(was[q], Shr(0x80, m)) else was[q]
  {
    assert Shl(1, 7) == 0x80 && Shl(0, 7) == 0 by {
      TopOne();
    }
    if m > 0 && !bit {
      ShrZero(m);
      OrNothing(was[q]);
    }
  }

  lemma TopOne()
    ensures Shl(1, 7) == 0x80 && Shl(0, 7) == 0
  {
    ShlTwice(1, 2, 6);
    ShlTwice(2, 4, 5);
    ShlTwice(4, 8, 4);
    ShlTwice(8, 16, 3);
    ShlTwice(16, 32, 2);
    ShlTwice(32, 64, 1);
    ShlTwice(64, 128, 0);
    ShlZero(7);
  }

  lemma ShlTwice(x: Byte, y: Byte, m: nat)
    requires y == 2 * x
    ensures Shl(x, m + 1) == Shl(y, m)
  {
  }

  lemma {:induction false} ShlZero(m: nat)
    ensures Shl(0, m) == 0
    decreases m
  {
    if m > 0 {
      ShlZero(m - 1);
    }
  }

  lemma OrNothing(x: Byte)
    ensures Or(x, 0) == x
  {
    forall k | 0 <= k < 8
      ensures Bit(Or(x, 0), k) == Bit(x, k)
    {
      ZeroBit(k);
      OrBit(x, 0, k);
    }
    SameBits(Or(x, 0), x);
  }

  // ---------------------------------------------------------------- what writing and reading mean

  /** The bits of the byte that the cursor has entered are zero behind it. */
  ghost predicate Clear(d: seq<Byte>, u: nat) {
    u <= 8 * |d| && forall t :: u <= t < 8 * Bytes(u) ==> !At(d, t)
  }

  /** The n bits at bit u of the buffer are those that the caller holds. */
  ghost predicate Holds(now: seq<Byte>, u: nat, input: seq<Byte>, n: nat, right: bool)
    requires u + n <= 8 * |now| && n <= 8 * |input|
  {
    forall t :: u <= t < u + n ==> At(now, t) == Held(input, n, right, t - u)
  }

  /** A bit of the buffer in its byte, the most significant first. */
  lemma AtMeans(d: seq<Byte>, t: nat)
    requires t < 8 * |d|
    ensures Pow2(7 - t % 8) > 0 && At(d, t) == (d[t / 8] / Pow2(7 - t % 8) % 2 == 1)
  {
    BitAt(d[t / 8], 8, t % 8);
  }

  /** A bit that a caller holds, in its byte: a partial last byte aligned right has its n % 8 bits at the low end. */
  lemma HeldMeans(bytes: seq<Byte>, n: nat, right: bool, t: nat, k: nat)
    requires t < n <= 8 * |bytes|
    requires k == if right && t >= n - n % 8 then n - 1 - t else 7 - t % 8
    ensures Pow2(k) > 0 && Held(bytes, n, right, t) == (bytes[t / 8] / Pow2(k) % 2 == 1)
  {
    if right && t >= n - n % 8 {
      assert t / 8 == n / 8;
      BitAt(bytes[t / 8], n % 8, t % 8);
    } else {
      assert t / 8 == n / 8 ==> t >= n - n % 8;
      AtMeans(bytes, t);
    }
  }

  /** What a write leaves at bit t of the bytes that it reaches: what was there in front of the cursor u; the
      bits of the input; and behind them those of a last byte aligned left. Only the byte that the cursor is
      inside of keeps its set bits. */
  lemma WroteMeans(was: seq<Byte>, now: seq<Byte>, u: nat, input: seq<Byte>, n: nat, right: bool, t: nat)
    requires Wrote(was, now, u, input, n, right) && t < 8 * ((u + n + 7) / 8)
    ensures
      var stays := u % 8 != 0 && t / 8 == u / 8 && At(was, t);
      At(now, t) ==
        if t < u then At(was, t)
        else if t < u + n then stays || Held(input, n, right, t - u)
        else stays || (!right && t - u < 8 * ((n + 7) / 8) && At(input, t - u))
  {
    assert WroteBit(was, now, u, input, n, right, t);
  }

  /** Writing puts the bits in exactly when no set bit of the byte entered meets a zero of the input. */
  lemma WrittenExactly(was: seq<Byte>, now: seq<Byte>, u: nat, input: seq<Byte>, n: nat, right: bool)
    requires Wrote(was, now, u, input, n, right)
    ensures Holds(now, u, input, n, right)
        <==> forall t :: u <= t < u + n && Kept(was, u, t) ==> Held(input, n, right, t - u)
  {
    forall t | u <= t < u + n
      ensures At(now, t) == (Held(input, n, right, t - u) || Kept(was, u, t))
    {
      assert WroteBit(was, now, u, input, n, right, t);
    }
  }

  lemma NothingKept(was: seq<Byte>, u: nat, t: nat)
    requires Clear(was, u) && u <= t
    ensures !Kept(was, u, t)
  {
    if u % 8 != 0 && t / 8 == u / 8 {
      assert t < 8 * Bytes(u);
    }
  }

  /** A byte that is clear behind the cursor takes the bits as they are. */
  lemma WrittenClear(was: seq<Byte>, now: seq<Byte>, u: nat, input: seq<Byte>, n: nat, right: bool)
    requires Wrote(was, now, u, input, n, right) && Clear(was, u)
    ensures Holds(now, u, input, n, right)
  {
    forall t | u <= t < u + n
      ensures At(now, t) == Held(input, n, right, t - u)
    {
      assert WroteBit(was, now, u, input, n, right, t);
      NothingKept(was, u, t);
    }
  }

  /** The buffer gets a bit from behind the n bits of the input. */
  predicate SpiltAt(input: seq<Byte>, n: nat, right: bool, u: nat, t: nat)
    requires n <= 8 * |input|
  {
    u + n <= t && Spilt(input, n, right, t - u)
  }

  lemma BehindWritten(was: seq<Byte>, now: seq<Byte>, u: nat, input: seq<Byte>, n: nat, right: bool, t: nat)
    requires Wrote(was, now, u, input, n, right) && Clear(was, u) && u + n <= t < 8 * Bytes(u + n)
    ensures At(now, t) == SpiltAt(input, n, right, u, t)
  {
    assert WroteBit(was, now, u, input, n, right, t);
    NothingKept(was, u, t);
  }

  /** It is clear again behind them, unless a partial byte came aligned left with other bits set in it. */
  lemma StaysClear(was: seq<Byte>, now: seq<Byte>, u: nat, input: seq<Byte>, n: nat, right: bool, end: nat)
    requires Wrote(was, now, u, input, n, right) && Clear(was, u) && end == u + n
    ensures Clear(now, end) <==> forall t :: end <= t < 8 * Bytes(end) ==> !SpiltAt(input, n, right, u, t)
  {
    forall t | end <= t < 8 * Bytes(end)
      ensures At(now, t) == SpiltAt(input, n, right, u, t)
    {
      BehindWritten(was, now, u, input, n, right, t);
    }
  }

  lemma RightStaysClear(was: seq<Byte>, now: seq<Byte>, u: nat, input: seq<Byte>, n: nat, right: bool, end: nat)
    requires Wrote(was, now, u, input, n, right) && Clear(was, u) && end == u + n && (right || n % 8 == 0)
    ensures Clear(now, end)
  {
    forall t | end <= t < 8 * Bytes(end)
      ensures !SpiltAt(input, n, right, u, t)
    {
      NothingSpilt(input, n, right, u, t);
    }
    StaysClear(was, now, u, input, n, right, end);
  }

  lemma NothingSpilt(input: seq<Byte>, n: nat, right: bool, u: nat, t: nat)
    requires n <= 8 * |input| && (right || n % 8 == 0)
    ensures !SpiltAt(input, n, right, u, t)
  {
    assert n % 8 == 0 ==> 8 * Bytes(n) == n;
  }

  lemma {:induction false} ByteBitsAt(d: seq<Byte>, t: nat)
    requires t < 8 * |d|
    ensures ByteBits(d)[t] == At(d, t)
    decreases |d|
  {
    if t >= 8 {
      ByteBitsAt(d[1..], t - 8);
      assert (t - 8) / 8 == t / 8 - 1;
    }
  }

  /** The bits that a caller holds. */
  function HeldBits(bytes: seq<Byte>, n: nat, right: bool): (b: seq<bool>)
    requires n <= 8 * |bytes|
    ensures |b| == n
  {
    seq(n, t requires 0 <= t < n => Held(bytes, n, right, t))
  }

  /** Whole bytes are their bits, and a partial byte aligned right is a number of that width. */
  lemma HeldBitsAre(bytes: seq<Byte>, n: nat, right: bool)
    requires n <= 8 * |bytes| && (right || n % 8 == 0)
    ensures HeldBits(bytes, n, right)
         == ByteBits(bytes[..n / 8]) + (if n % 8 == 0 then [] else Bits(bytes[n / 8], n % 8))
  {
    var whole := ByteBits(bytes[..n / 8]) + (if n % 8 == 0 then [] else Bits(bytes[n / 8], n % 8));
    forall t | 0 <= t < n
      ensures Held(bytes, n, right, t) == whole[t]
    {
      if t < n - n % 8 {
        ByteBitsAt(bytes[..n / 8], t);
      } else {
        assert t / 8 == n / 8;
      }
    }
    assert HeldBits(bytes, n, right) == whole;
  }

  lemma AppendedBit(was: seq<Byte>, now: seq<Byte>, u: nat, input: seq<Byte>, n: nat, right: bool, t: nat)
    requires Wrote(was, now, u, input, n, right) && Clear(was, u) && t < u + n
    ensures ByteBits(now)[t] == if t < u then ByteBits(was)[t] else Held(input, n, right, t - u)
  {
    ByteBitsAt(now, t);
    assert WroteBit(was, now, u, input, n, right, t);
    if t < u {
      ByteBitsAt(was, t);
    } else {
      NothingKept(was, u, t);
    }
  }

  /** Seen as bits, a write where the byte is clear behind the cursor puts the bits behind those before. */
  lemma WriteAppends(was: seq<Byte>, now: seq<Byte>, u: nat, input: seq<Byte>, n: nat, right: bool, end: nat)
    requires Wrote(was, now, u, input, n, right) && Clear(was, u) && end == u + n
    ensures ByteBits(now)[..end] == ByteBits(was)[..u] + HeldBits(input, n, right)
  {
    forall t | 0 <= t < end
      ensures ByteBits(now)[t] == if t < u then ByteBits(was)[t] else HeldBits(input, n, right)[t - u]
    {
      AppendedBit(was, now, u, input, n, right, t);
    }
    Appended(ByteBits(now), ByteBits(was), u, HeldBits(input, n, right), end);
  }

  lemma Appended(a: seq<bool>, b: seq<bool>, u: nat, more: seq<bool>, end: nat)
    requires u <= |b| && end == u + |more| <= |a|
    requires forall t :: 0 <= t < end ==> a[t] == if t < u then b[t] else more[t - u]
    ensures a[..end] == b[..u] + more
  {
  }

  lemma BehindKept(was: seq<Byte>, now: seq<Byte>, e: nat, end: nat)
    requires e <= |was| <= |now| && end == 8 * e
    requires forall i :: e <= i < |was| ==> now[i] == was[i]
    ensures forall t :: end <= t < 8 * |was| ==> ByteBits(now)[t] == ByteBits(was)[t]
  {
    forall t | end <= t < 8 * |was|
      ensures ByteBits(now)[t] == ByteBits(was)[t]
    {
      ByteBitsAt(now, t);
      ByteBitsAt(was, t);
    }
  }

  lemma AlignedClear(was: seq<Byte>, u: nat)
    requires u <= 8 * |was| && u % 8 == 0
    ensures Clear(was, u) && Bytes(u) == u / 8
  {
  }

  /** A write of whole bytes on a byte boundary replaces them and nothing else. */
  lemma WriteReplaces(was: seq<Byte>, now: seq<Byte>, u: nat, input: seq<Byte>, n: nat, right: bool, end: nat)
    requires Wrote(was, now, u, input, n, right) && u % 8 == 0 && n % 8 == 0 && end == u + n <= 8 * |was|
    ensures ByteBits(now)[..8 * |was|] == ByteBits(was)[..u] + HeldBits(input, n, right) + ByteBits(was)[end..]
  {
    AlignedClear(was, u);
    AlignedClear(was, end);
    WriteAppends(was, now, u, input, n, right, end);
    BehindKept(was, now, end / 8, end);
    TwoParts(ByteBits(now), ByteBits(was), end);
  }

  lemma TwoParts(a: seq<bool>, b: seq<bool>, end: nat)
    requires end <= |b| <= |a| && forall t :: end <= t < |b| ==> a[t] == b[t]
    ensures a[..|b|] == a[..end] + b[end..]
  {
  }

  lemma {:induction false} NumberLow(x: nat, n: nat)
    ensures Pow2(n) > 0 && Number(Bits(x, n)) == x % Pow2(n)
    decreases n
  {
    if n > 0 {
      NumberLow(x / 2, n - 1);
      assert Bits(x, n)[..n - 1] == Bits(x / 2, n - 1);
      DoubledRest(x, Pow2(n - 1));
    }
  }

  lemma DoubledRest(x: nat, p: nat)
    requires p > 0
    ensures 2 * (x / 2 % p) + x % 2 == x % (2 * p)
  {
    var q, r := x / 2 / p, x / 2 % p;
    assert x / 2 == p * q + r;
    RestIs(x, 2 * p, q, 2 * r + x % 2);
  }

  lemma RestIs(x: nat, p: nat, q: nat, r: nat)
    requires x == p * q + r && r < p
    ensures x % p == r
  {
    var d := x / p - q;
    assert p * d == r - x % p;
  }

  /** Whatever is written in between, bits that are still there are read back as the caller held them:
      whole bytes as they were, and of a partial byte its low bits. */
  lemma ReadsBack(was: seq<Byte>, now: seq<Byte>, u: nat, input: seq<Byte>, n: nat, right: bool, later: seq<Byte>,
                  before: seq<Byte>, out: seq<Byte>)
    requires Wrote(was, now, u, input, n, right) && Clear(was, u)
    requires Took(later, u, before, out, n, right)
    requires forall t :: u <= t < u + n ==> At(later, t) == At(now, t)
    ensures out[..n / 8] == input[..n / 8]
    ensures right && n % 8 != 0 ==> out[n / 8] == input[n / 8] % Pow2(n % 8)
  {
    WrittenClear(was, now, u, input, n, right);
    forall t | 0 <= t < n
      ensures Held(out, n, right, t) == Held(input, n, right, t)
    {
      assert At(later, u + t) == At(now, u + t);
    }
    forall j | 0 <= j < n / 8
      ensures out[j] == input[j]
    {
      forall k | 0 <= k < 8
        ensures Bit(out[j], k) == Bit(input[j], k)
      {
        HeldByte(out, input, n, right, j, k, 8 * j + k);
      }
      SameBits(out[j], input[j]);
    }
    if right && n % 8 != 0 {
      SameLow(out, input, n);
    }
  }

  lemma HeldByte(out: seq<Byte>, input: seq<Byte>, n: nat, right: bool, j: nat, k: nat, t: nat)
    requires n <= 8 * |input| && n <= 8 * |out| && j < n / 8 && k < 8 && t == 8 * j + k
    requires Held(out, n, right, t) == Held(input, n, right, t)
    ensures Bit(out[j], k) == Bit(input[j], k)
  {
    assert t / 8 == j && t % 8 == k;
  }

  lemma SameLow(out: seq<Byte>, input: seq<Byte>, n: nat)
    requires n <= 8 * |input| && n <= 8 * |out| && n % 8 != 0 && out[n / 8] < Pow2(n % 8)
    requires forall t :: 0 <= t < n ==> Held(out, n, true, t) == Held(input, n, true, t)
    ensures out[n / 8] == input[n / 8] % Pow2(n % 8)
  {
    var j, r := n / 8, n % 8;
    forall k | 0 <= k < r
      ensures Bits(out[j], r)[k] == Bits(input[j], r)[k]
    {
      var t := 8 * j + k;
      assert t / 8 == j && t % 8 == k && Held(out, n, true, t) == Held(input, n, true, t);
    }
    assert Bits(out[j], r) == Bits(input[j], r);
    NumberBits(out[j], r);
    NumberLow(input[j], r);
  }
}
