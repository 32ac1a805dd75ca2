/** ApplyPatch: interpreting a patch against the base. */
module Patcher {
  import opened SuffixOrder
  import opened OffT
  import opened Options
  import opened PatchFormat

  const TWO_32 := 0x1_0000_0000

  /** Undefined stands for what the C++ code leaves undefined: reading or copying outside its
      buffers, counters that do not fit 32 bits and cursors that do not fit 64. */
  datatype Outcome = Patched(target: seq<Byte>) | Rejected | Undefined

  /** The difference bytes d with the base added from oldpos on, where there is one. */
  function AddOld(d: seq<Byte>, base: seq<Byte>, oldpos: int): (r: seq<Byte>)
    ensures |r| == |d|
  {
    seq(|d|, i requires 0 <= i < |d| =>
      if 0 <= oldpos + i < |base| then Plus(d[i], base[oldpos + i]) else d[i])
  }

  /** What off_t can hold. */
  predicate Fits(x: int) {
    -TWO_63 <= x < TWO_63
  }

  /** The interpreter loop: out holds the three decompressed blocks one after the other. */
  function Replay(base: seq<Byte>, out: seq<Byte>, coff: nat, doff: nat, eoff: nat, oldpos: int,
                  newsize: nat, built: seq<Byte>): Outcome
    requires doff <= |out| && eoff <= |out|
    decreases |out| - coff
  {
    if |built| >= newsize then Patched(built)
    else if coff + 24 > |out| then Undefined
    else
      var x, y, z := Decode(out[coff..coff + 8]), Decode(out[coff + 8..coff + 16]), Decode(out[coff + 16..coff + 24]);
      if !Fits(|built| + x) then Undefined
      else if |built| + x > newsize then Rejected
      else if x < 0 || doff + x > |out| || !Fits(oldpos + x) then Undefined
      else
        var mid := built + AddOld(out[doff..doff + x], base, oldpos);
        if !Fits(|mid| + y) then Undefined
        else if |mid| + y > newsize then Rejected
        else if y < 0 || eoff + y > |out| || !Fits(oldpos + x + z) then Undefined
        else Replay(base, out, coff + 24, doff + x, eoff + y, oldpos + x + z, newsize, mid + out[eoff..eoff + y])
  }

  /** Replay, as seen from outside. */
  function RunFrom(base: seq<Byte>, out: seq<Byte>, coff: nat, doff: nat, eoff: nat, oldpos: int, newsize: nat,
                   built: seq<Byte>): Outcome
    requires doff <= |out| && eoff <= |out|
  {
    Replay(base, out, coff, doff, eoff, oldpos, newsize, built)
  }

  /** The decompressor: what one section adds to its output, given the sections it was fed before. */
  type Codec = (seq<seq<Byte>>, seq<Byte>) -> Option<seq<Byte>>

  /** It takes back three sections that were compressed one after the other. */
  ghost predicate Inverts(z: seq<Byte> -> seq<Byte>, dz: Codec) {
    forall c, d, e :: TakesBack(z, dz, c, d, e)
  }

  predicate TakesBack(z: seq<Byte> -> seq<Byte>, dz: Codec, c: seq<Byte>, d: seq<Byte>, e: seq<Byte>) {
    && dz([], z(c)) == Some(c)
    && dz([z(c)], z(d)) == Some(d)
    && dz([z(c), z(d)], z(e)) == Some(e)
  }

  /** Splits the file at the sizes in the header and decompresses the three blocks. */
  function Blocks(patch: seq<Byte>, dz: Codec): Option<(seq<Byte>, seq<Byte>, seq<Byte>)>
    requires |patch| >= 32
    requires var x, y := Decode(patch[8..16]), Decode(patch[16..24]); 0 <= x && 0 <= y && 32 + x + y <= |patch|
  {
    var x, y := Decode(patch[8..16]), Decode(patch[16..24]);
    var p, q, r := patch[32..32 + x], patch[32 + x..32 + x + y], patch[32 + x + y..];
    match (dz([], p), dz([p], q), dz([p, q], r))
    case (Some(c), Some(d), Some(e)) => Some((c, d, e))
    case _ => None
  }

  /** What ApplyPatch makes of any file. It allocates newsize + 1 bytes, a number of 32 bits. */
  function Apply(base: seq<Byte>, patch: seq<Byte>, dz: Codec): Outcome {
    if |patch| < 8 || |patch| >= TWO_32 then Undefined
    else if patch[..8] != MAGIC then Rejected
    else if |patch| < 32 then Undefined
    else
      var x, y := Decode(patch[8..16]), Decode(patch[16..24]);
      var newsize := Decode(patch[24..32]) % TWO_32;
      if x < 0 || y < 0 then Rejected
      else if 32 + x + y > |patch| then Undefined
      else
        match Blocks(patch, dz)
        case None => Rejected
        case Some((c, d, e)) =>
          var out := c + d + e;
          if |out| >= TWO_32 || newsize + 1 >= TWO_32 then Undefined
          else RunFrom(base, out, 0, |c|, |c| + |d|, 0, newsize, [])
  }

  lemma {:induction false} ReplaySize(base: seq<Byte>, out: seq<Byte>, coff: nat, doff: nat, eoff: nat, oldpos: int,
                                      newsize: nat, built: seq<Byte>)
    requires doff <= |out| && eoff <= |out| && |built| <= newsize
    ensures var r := Replay(base, out, coff, doff, eoff, oldpos, newsize, built);
      r.Patched? ==> |r.target| == newsize
    decreases |out| - coff
  {
    if |built| < newsize && coff + 24 <= |out| {
      var x, y, z := Decode(out[coff..coff + 8]), Decode(out[coff + 8..coff + 16]), Decode(out[coff + 16..coff + 24]);
      if 0 <= x && |built| + x <= newsize && doff + x <= |out| {
        var mid := built + AddOld(out[doff..doff + x], base, oldpos);
        if 0 <= y && |mid| + y <= newsize && eoff + y <= |out| {
          ReplaySize(base, out, coff + 24, doff + x, eoff + y, oldpos + x + z, newsize, mid + out[eoff..eoff + y]);
        }
      }
    }
  }

  /** Whatever is patched has a size of 32 bits. */
  lemma PatchedSize(base: seq<Byte>, patch: seq<Byte>, dz: Codec)
    ensures var r := Apply(base, patch, dz); r.Patched? ==> |r.target| < TWO_32
  {
    if Apply(base, patch, dz).Patched? {
      var b := Blocks(patch, dz).value;
      var out := b.0 + b.1 + b.2;
      ReplaySize(base, out, 0, |b.0|, |b.0| + |b.1|, 0, Decode(patch[24..32]) % TWO_32, []);
    }
  }

  /** The files that are turned down by their header, in their bytes: the first eight do not spell "BSDIFF40", or
      a section has a negative length, which is the sign bit of its last byte and some other bit. */
  lemma Refused(base: seq<Byte>, patch: seq<Byte>, dz: Codec)
    requires 8 <= |patch| < TWO_32
    ensures patch[..8] != [66, 83, 68, 73, 70, 70, 52, 48] ==> Apply(base, patch, dz) == Rejected
    ensures |patch| >= 32 && patch[15] >= 128 && patch[8..16] != [0, 0, 0, 0, 0, 0, 0, 128] ==>
              Apply(base, patch, dz) == Rejected
    ensures |patch| >= 32 && patch[23] >= 128 && patch[16..24] != [0, 0, 0, 0, 0, 0, 0, 128] ==>
              Apply(base, patch, dz) == Rejected
  {
    if |patch| >= 32 {
      DecodeNegative(patch[8..16]);
      DecodeNegative(patch[16..24]);
    }
  }

  /** Conversely a header that spells it, with section lengths p and q that the file has room for, leads to the
      sections: the file is turned down if one of them does not decompress, and otherwise replayed from its
      first triple. */
  lemma HeaderTaken(base: seq<Byte>, patch: seq<Byte>, dz: Codec, p: nat, q: nat, newsize: int)
    requires 32 + p + q <= |patch| < TWO_32
    requires patch[..8] == [66, 83, 68, 73, 70, 70, 52, 48]
    requires p == Decode(patch[8..16]) && q == Decode(patch[16..24]) && newsize == Decode(patch[24..32])
    ensures
      var ctrl, diff, extra := patch[32..32 + p], patch[32 + p..32 + p + q], patch[32 + p + q..];
      var r := Apply(base, patch, dz);
      match (dz([], ctrl), dz([ctrl], diff), dz([ctrl, diff], extra))
      case (Some(c), Some(d), Some(e)) =>
        0 <= newsize < 0xFFFF_FFFF && |c| + |d| + |e| < TWO_32 ==>
          r == RunFrom(base, c + d + e, 0, |c|, |c| + |d|, 0, newsize, [])
      case _ => r == Rejected
  {
  }

  // ---------------------------------------------------------------- the imperative interpreter

  /** One triple, carried out on the output buffer. */
  method AddOldInPlace(buf: array<Byte>, newpos: nat, out: seq<Byte>, doff: nat, len: nat, base: seq<Byte>, oldpos: int)
    requires newpos + len <= buf.Length && doff + len <= |out|
    modifies buf
    ensures buf[..newpos + len] == old(buf[..newpos]) + AddOld(out[doff..doff + len], base, oldpos)
  {
    ghost var b0, d := buf[..], out[doff..doff + len];
    for i := 0 to len
      invariant buf[..newpos] == b0[..newpos]
      invariant buf[newpos..newpos + i] == d[..i]
    {
      buf[newpos + i] := out[doff + i];
    }
    assert buf[newpos..newpos + len] == d;
    ghost var sum := AddOld(d, base, oldpos);
    for i := 0 to len
      invariant buf[..newpos] == b0[..newpos]
      invariant forall k :: 0 <= k < len ==> buf[newpos..newpos + len][k] == if k < i then sum[k] else d[k]
    {
      assert buf[newpos + i] == buf[newpos..newpos + len][i] == d[i];
      if 0 <= oldpos + i < |base| {
        buf[newpos + i] := Plus(buf[newpos + i], base[oldpos + i]);
      }
    }
    assert buf[newpos..newpos + len] == sum;
    assert buf[..newpos + len] == buf[..newpos] + buf[newpos..newpos + len];
  }

  method CopyExtra(buf: array<Byte>, newpos: nat, out: seq<Byte>, eoff: nat, len: nat)
    requires newpos + len <= buf.Length && eoff + len <= |out|
    modifies buf
    ensures buf[..newpos + len] == old(buf[..newpos]) + out[eoff..eoff + len]
  {
    ghost var b0 := buf[..];
    for i := 0 to len
      invariant buf[..newpos] == b0[..newpos]
      invariant buf[newpos..newpos + i] == out[eoff..eoff + i]
    {
      buf[newpos + i] := out[eoff + i];
    }
    assert buf[..newpos + len] == buf[..newpos] + buf[newpos..newpos + len];
  }

  /** What a turn that passes its checks does. */
  lemma TurnUnfolds(base: seq<Byte>, out: seq<Byte>, coff: nat, doff: nat, eoff: nat, oldpos: int, newsize: nat,
                    built: seq<Byte>,
                    x: int, y: int, z: int, mid: seq<Byte>, next: seq<Byte>,
                    coff': nat, doff': nat, eoff': nat, oldpos': int)
    requires |built| < newsize && coff + 24 <= |out| && doff <= |out| && eoff <= |out|
    requires x == Decode(out[coff..coff + 8]) && y == Decode(out[coff + 8..coff + 16]) &&
        z == Decode(out[coff + 16..coff + 24])
    requires |built| + x <= newsize && 0 <= x && doff + x <= |out| && newsize < TWO_63
    requires Fits(oldpos + x) && Fits(oldpos + x + z)
    requires mid == built + AddOld(out[doff..doff + x], base, oldpos)
    requires |mid| + y <= newsize && 0 <= y && eoff + y <= |out| && next == mid + out[eoff..eoff + y]
    requires coff' == coff + 24 && doff' == doff + x && eoff' == eoff + y && oldpos' == oldpos + x + z
    ensures RunFrom(base, out, coff, doff, eoff, oldpos, newsize, built)
        == RunFrom(base, out, coff', doff', eoff', oldpos', newsize, next)
  {
  }

  /** What a turn that fails a check does. */
  lemma TurnStops(base: seq<Byte>, out: seq<Byte>, coff: nat, doff: nat, eoff: nat, oldpos: int, newsize: nat,
                  built: seq<Byte>)
    requires doff <= |out| && eoff <= |out|
    ensures
      var r := RunFrom(base, out, coff, doff, eoff, oldpos, newsize, built);
      && (|built| >= newsize ==> r == Patched(built))
      && (|built| < newsize && coff + 24 > |out| ==> r == Undefined)
  {
  }

  /** A turn stops at its difference bytes. */
  predicate AddStops(out: seq<Byte>, doff: nat, oldpos: int, newsize: nat, newpos: nat, x: int) {
    newpos + x > newsize || x < 0 || doff + x > |out| || !Fits(oldpos + x)
  }

  /** A turn stops at its extra bytes. */
  predicate CopyStops(out: seq<Byte>, eoff: nat, nextold: int, newsize: nat, mid: nat, y: int) {
    mid + y > newsize || y < 0 || eoff + y > |out| || !Fits(nextold)
  }

  /** How it stops there: the check that rejects comes first, unless its sum has already overflowed. */
  function Stopped(newsize: nat, reached: int): Outcome {
    if Fits(reached) && reached > newsize then Rejected else Undefined
  }

  lemma TurnFails(base: seq<Byte>, out: seq<Byte>, coff: nat, doff: nat, eoff: nat, oldpos: int, newsize: nat,
                  built: seq<Byte>,
                  x: int, y: int, z: int)
    requires |built| < newsize < TWO_63 && coff + 24 <= |out| && doff <= |out| && eoff <= |out|
    requires x == Decode(out[coff..coff + 8]) && y == Decode(out[coff + 8..coff + 16]) &&
        z == Decode(out[coff + 16..coff + 24])
    ensures
      var r := RunFrom(base, out, coff, doff, eoff, oldpos, newsize, built);
      if AddStops(out, doff, oldpos, newsize, |built|, x) then r == Stopped(newsize, |built| + x)
      else CopyStops(out, eoff, oldpos + x + z, newsize, |built| + x, y) ==> r == Stopped(newsize, |built| + x + y)
  {
  }

  /** What a turn of x difference bytes and y extra bytes builds, in the bytes themselves: each difference byte
      has the base byte at its place added modulo 256, if there is one. */
  ghost predicate Builds(base: seq<Byte>, out: seq<Byte>, doff: nat, eoff: nat, oldpos: int, built: seq<Byte>,
                         x: nat, y: nat, next: seq<Byte>)
  {
    && doff + x <= |out| && eoff + y <= |out| && |next| == |built| + x + y
    && next[..|built|] == built && next[|built| + x..] == out[eoff..eoff + y]
    && var diff, added := out[doff..doff + x], next[|built|..|built| + x];
    && forall i :: 0 <= i < x ==>
         added[i] == if 0 <= oldpos + i < |base| then (diff[i] as int + base[oldpos + i] as int) % 256 else diff[i]
  }

  lemma BuildsBoth(base: seq<Byte>, out: seq<Byte>, doff: nat, eoff: nat, oldpos: int, built: seq<Byte>,
                   x: nat, y: nat, next: seq<Byte>, mid: seq<Byte>)
    requires Builds(base, out, doff, eoff, oldpos, built, x, y, next) && mid == next[..|built| + x]
    ensures mid == built + AddOld(out[doff..doff + x], base, oldpos)
    ensures next == mid + out[eoff..eoff + y]
  {
    var n := |built|;
    assert next[n..n + x] == AddOld(out[doff..doff + x], base, oldpos);
    assert next == next[..n] + next[n..n + x] + next[n + x..] && next[..n + x] == next[..n] + next[n..n + x];
  }

  /** One turn that passes its checks: the interpreter goes on with what it builds, behind the triple x, y, z, and
      with the base cursor moved by x and then by z. */
  lemma TurnBuilds(base: seq<Byte>, out: seq<Byte>, coff: nat, doff: nat, eoff: nat, oldpos: int, newsize: nat,
                   built: seq<Byte>, x: nat, y: nat, z: int, next: seq<Byte>)
    requires |built| < newsize < TWO_32 && coff + 24 <= |out| && doff <= |out| && eoff <= |out|
    requires x == Decode(out[coff..coff + 8]) && y == Decode(out[coff + 8..coff + 16])
    requires z == Decode(out[coff + 16..coff + 24])
    requires Fits(oldpos + x) && Fits(oldpos + x + z)
    requires |next| <= newsize && Builds(base, out, doff, eoff, oldpos, built, x, y, next)
    ensures RunFrom(base, out, coff, doff, eoff, oldpos, newsize, built)
         == RunFrom(base, out, coff + 24, doff + x, eoff + y, oldpos + x + z, newsize, next)
  {
    var mid := next[..|built| + x];
    BuildsBoth(base, out, doff, eoff, oldpos, built, x, y, next, mid);
    TurnUnfolds(base, out, coff, doff, eoff, oldpos, newsize, built, x, y, z, mid, next,
                coff + 24, doff + x, eoff + y, oldpos + x + z);
  }

  /** A triple that would make the file longer than newsize is turned down, for its difference bytes before
      anything else is looked at, and for its extra bytes once there are difference bytes enough. */
  lemma TurnTooLong(base: seq<Byte>, out: seq<Byte>, coff: nat, doff: nat, eoff: nat, oldpos: int, newsize: nat,
                    built: seq<Byte>, x: nat, y: int)
    requires |built| < newsize < TWO_32 && coff + 24 <= |out| && doff <= |out| && eoff <= |out|
    requires x == Decode(out[coff..coff + 8]) && y == Decode(out[coff + 8..coff + 16])
    requires newsize < |built| + x < TWO_63
             || (newsize < |built| + x + y < TWO_63 && |built| + x <= newsize && doff + x <= |out| && Fits(oldpos + x))
    ensures RunFrom(base, out, coff, doff, eoff, oldpos, newsize, built) == Rejected
  {
    TurnFails(base, out, coff, doff, eoff, oldpos, newsize, built, x, y, Decode(out[coff + 16..coff + 24]));
  }

  method ReadControl(out: seq<Byte>, coff: nat) returns (x: int, y: int, z: int)
    requires coff + 24 <= |out|
    ensures x == Decode(out[coff..coff + 8]) && y == Decode(out[coff + 8..coff + 16])
    ensures z == Decode(out[coff + 16..coff + 24])
  {
    x := OffTIn(out[coff..coff + 8]);
    y := OffTIn(out[coff + 8..coff + 16]);
    z := OffTIn(out[coff + 16..coff + 24]);
  }

  /** One turn of the loop of ApplyPatch: it ends the replay, or appends to what is built. */
  method TurnInPlace(base: seq<Byte>, out: seq<Byte>, buf: array<Byte>, newpos: nat, coff: nat, doff: nat, eoff: nat,
                     oldpos: int, newsize: nat, ghost built: seq<Byte>)
    returns (ended: bool, r: Outcome, newpos': nat, coff': nat, doff': nat, eoff': nat, oldpos': int)
    requires newpos < newsize < buf.Length && newsize < TWO_32 && doff <= |out| && eoff <= |out|
    requires built == buf[..newpos]
    modifies buf
    ensures ended ==> r == RunFrom(base, out, coff, doff, eoff, oldpos, newsize, built)
    ensures !ended ==>
      && newpos' <= newsize && coff < coff' <= |out| && doff' <= |out| && eoff' <= |out|
      && RunFrom(base, out, coff, doff, eoff, oldpos, newsize, built)
      == RunFrom(base, out, coff', doff', eoff', oldpos', newsize, buf[..newpos'])
  {
    TurnStops(base, out, coff, doff, eoff, oldpos, newsize, built);
    ended, r, newpos', coff', doff', eoff', oldpos' := true, Undefined, newpos, coff, doff, eoff, oldpos;
    if coff + 24 > |out| {
      return;
    }
    var x, y, z := ReadControl(out, coff);
    TurnFails(base, out, coff, doff, eoff, oldpos, newsize, built, x, y, z);
    if AddStops(out, doff, oldpos, newsize, newpos, x) {
      r := Stopped(newsize, newpos + x);
      return;
    }
    AddOldInPlace(buf, newpos, out, doff, x, base, oldpos);
    ghost var mid := buf[..newpos + x];
    if CopyStops(out, eoff, oldpos + x + z, newsize, newpos + x, y) {
      r := Stopped(newsize, newpos + x + y);
      return;
    }
    CopyExtra(buf, newpos + x, out, eoff, y);
    ended, newpos', coff', doff', eoff', oldpos' :=
      false, newpos + x + y, coff + 24, doff + x, eoff + y, oldpos + x + z;
    TurnUnfolds(base, out, coff, doff, eoff, oldpos, newsize, built, x, y, z, mid, buf[..newpos'],
                coff', doff', eoff', oldpos');
  }

  /** The while loop of ApplyPatch, on an output buffer. */
  method ReplayInPlace(base: seq<Byte>, out: seq<Byte>, doff0: nat, eoff0: nat, newsize: nat)
    returns (r: Outcome)
    requires doff0 <= |out| && eoff0 <= |out| && newsize < TWO_32
    ensures r == RunFrom(base, out, 0, doff0, eoff0, 0, newsize, [])
  {
    ghost var want := RunFrom(base, out, 0, doff0, eoff0, 0, newsize, []);
    var buf := new Byte[newsize + 1];
    var coff: nat, doff: nat, eoff: nat := 0, doff0, eoff0;
    var oldpos: int, newpos: int := 0, 0;
    ghost var built: seq<Byte> := [];
    while newpos < newsize
      invariant 0 <= newpos <= newsize && doff <= |out| && eoff <= |out|
      invariant built == buf[..newpos]
      invariant want == RunFrom(base, out, coff, doff, eoff, oldpos, newsize, built)
      decreases |out| - coff
    {
      var ended;
      ended, r, newpos, coff, doff, eoff, oldpos :=
        TurnInPlace(base, out, buf, newpos, coff, doff, eoff, oldpos, newsize, built);
      if ended {
        return;
      }
      built := buf[..newpos];
    }
    TurnStops(base, out, coff, doff, eoff, oldpos, newsize, built);
    return Patched(buf[..newpos]);
  }

  /** ApplyPatch. */
  method ApplyPatch(base: seq<Byte>, patch: seq<Byte>, dz: Codec) returns (r: Outcome)
    ensures r == Apply(base, patch, dz)
  {
    if |patch| < 8 || |patch| >= TWO_32 {
      return Undefined;
    }
    if patch[..8] != MAGIC {
      return Rejected;
    }
    if |patch| < 32 {
      return Undefined;
    }
    var bzctrllen := OffTIn(patch[8..16]);
    var bzdatalen := OffTIn(patch[16..24]);
    var size := OffTIn(patch[24..32]);
    var newsize := size % TWO_32;
    if bzctrllen < 0 || bzdatalen < 0 {
      return Rejected;
    }
    if 32 + bzctrllen + bzdatalen > |patch| {
      return Undefined;
    }
    var ctrl, diff := patch[32..32 + bzctrllen], patch[32 + bzctrllen..32 + bzctrllen + bzdatalen];
    var c := dz([], ctrl);
    var d := dz([ctrl], diff);
    var e := dz([ctrl, diff], patch[32 + bzctrllen + bzdatalen..]);
    if !c.Some? || !d.Some? || !e.Some? {
      return Rejected;
    }
    var out := c.value + d.value + e.value;
    if |out| >= TWO_32 || newsize + 1 >= TWO_32 {
      return Undefined;
    }
    r := ReplayInPlace(base, out, |c.value|, |c.value| + |d.value|, newsize);
  }

  // ---------------------------------------------------------------- the round trip

  /** The decompressed output holds the three blocks one after the other. */
  ghost predicate Holds(out: seq<Byte>, c: seq<Byte>, db: seq<Byte>, eb: seq<Byte>) {
    && |out| == |c| + |db| + |eb|
    && out[..|c|] == c && out[|c|..|c| + |db|] == db && out[|c| + |db|..] == eb
  }

  lemma SliceOfSlice(s: seq<Byte>, lo: nat, hi: nat, a: nat, b: nat)
    requires lo <= hi <= |s| && a <= b <= hi - lo
    ensures s[lo..hi][a..b] == s[lo + a..lo + b]
  {
    assert forall i :: 0 <= i < b - a ==> s[lo..hi][a..b][i] == s[lo..hi][a + i] == s[lo + a..lo + b][i];
  }

  lemma BlockSlices(out: seq<Byte>, c: seq<Byte>, db: seq<Byte>, eb: seq<Byte>, a: nat, n: nat)
    requires Holds(out, c, db, eb)
    ensures a + n <= |c| ==> out[a..a + n] == c[a..a + n]
    ensures a + n <= |db| ==> out[|c| + a..|c| + a + n] == db[a..a + n]
    ensures a + n <= |eb| ==> out[|c| + |db| + a..|c| + |db| + a + n] == eb[a..a + n]
  {
    if a + n <= |c| {
      assert out[0..|c|] == c;
      SliceOfSlice(out, 0, |c|, a, a + n);
    }
    if a + n <= |db| {
      SliceOfSlice(out, |c|, |c| + |db|, a, a + n);
    }
    if a + n <= |eb| {
      var lo := |c| + |db|;
      assert out[lo..|out|] == eb;
      SliceOfSlice(out, lo, |out|, a, a + n);
      assert out[lo + a..lo + a + n] == eb[a..a + n];
    }
  }

  /** The three offsets at coff are those of t. */
  ghost predicate Reads(out: seq<Byte>, coff: nat, t: Triple) {
    && coff + 24 <= |out|
    && Decode(out[coff..coff + 8]) == t.add
    && Decode(out[coff + 8..coff + 16]) == t.copy
    && Decode(out[coff + 16..coff + 24]) == t.seek
  }

  lemma ReadTriple(out: seq<Byte>, coff: nat, t: Triple)
    requires coff + 24 <= |out| && out[coff..coff + 24] == TripleBytes(t)
    ensures Reads(out, coff, t)
  {
    SliceOfSlice(out, coff, coff + 24, 0, 8);
    SliceOfSlice(out, coff, coff + 24, 8, 16);
    SliceOfSlice(out, coff, coff + 24, 16, 24);
    DecodeEncode(t.add);
    DecodeEncode(t.copy);
    DecodeEncode(t.seek);
  }

  lemma TripleAt(ts: seq<Triple>, c: seq<Byte>, db: seq<Byte>, eb: seq<Byte>, out: seq<Byte>, k: nat)
    requires c == CtrlBytes(ts) && Holds(out, c, db, eb) && k < |ts|
    ensures Reads(out, 24 * k, ts[k])
  {
    CtrlAt(ts, k);
    BlockSlices(out, c, db, eb, 24 * k, 24);
    ReadTriple(out, 24 * k, ts[k]);
  }

  /** The blocks at the cursors of a turn give the next stretch of the target. */
  ghost predicate Supplies(base: seq<Byte>, target: seq<Byte>, out: seq<Byte>, t: Triple, newpos: int, oldpos: int,
                           doff: int, eoff: int)
  {
    && 0 <= t.add && 0 <= t.copy
    && 0 <= newpos && newpos + t.add + t.copy <= |target|
    && 0 <= oldpos && oldpos + t.add <= |base| && Fits(oldpos + t.add) && Fits(oldpos + t.add + t.seek)
    && 0 <= doff && doff + t.add <= |out|
    && 0 <= eoff && eoff + t.copy <= |out|
    && Sum(out[doff..doff + t.add], base[oldpos..oldpos + t.add]) == target[newpos..newpos + t.add]
    && out[eoff..eoff + t.copy] == target[newpos + t.add..newpos + t.add + t.copy]
  }

  lemma SuppliesFromBlocks(base: seq<Byte>, target: seq<Byte>, t: Triple, c: seq<Byte>, db: seq<Byte>, eb: seq<Byte>,
                           out: seq<Byte>,
                           newpos: int, oldpos: int, doff: int, eoff: int)
    requires Produces(base, target, t, db, eb, newpos, oldpos, doff, eoff) && Holds(out, c, db, eb)
    ensures Supplies(base, target, out, t, newpos, oldpos, |c| + doff, |c| + |db| + eoff)
  {
    BlockSlices(out, c, db, eb, doff, t.add);
    BlockSlices(out, c, db, eb, eoff, t.copy);
  }

  /** One turn of the loop on the triple t, from one set of cursors to the next. */
  lemma ReplayTurn(base: seq<Byte>, target: seq<Byte>, out: seq<Byte>, t: Triple, coff: nat, doff: nat, eoff: nat,
                   oldpos: nat, newpos: nat,
                   coff': nat, doff': nat, eoff': nat, oldpos': int, newpos': nat)
    requires newpos < |target| < TWO_63 && Reads(out, coff, t)
    requires Supplies(base, target, out, t, newpos, oldpos, doff, eoff)
    requires coff' == coff + 24 && doff' == doff + t.add && eoff' == eoff + t.copy
    requires oldpos' == oldpos + t.add + t.seek && newpos' == newpos + t.add + t.copy
    ensures RunFrom(base, out, coff, doff, eoff, oldpos, |target|, target[..newpos]) ==
            RunFrom(base, out, coff', doff', eoff', oldpos', |target|, target[..newpos'])
  {
    var d := out[doff..doff + t.add];
    assert AddOld(d, base, oldpos) == Sum(d, base[oldpos..oldpos + t.add]);
    assert target[..newpos + t.add] == target[..newpos] + target[newpos..newpos + t.add];
    assert target[..newpos'] == target[..newpos + t.add] + target[newpos + t.add..newpos'];
    TurnUnfolds(base, out, coff, doff, eoff, oldpos, |target|, target[..newpos], t.add, t.copy, t.seek,
                target[..newpos + t.add], target[..newpos'], coff', doff', eoff', oldpos');
  }

  /** A turn on a triple that the blocks support, from one set of cursors to the next. */
  lemma TurnFromBlocks(base: seq<Byte>, target: seq<Byte>, t: Triple, c: seq<Byte>, db: seq<Byte>, eb: seq<Byte>,
                       out: seq<Byte>,
                       coff: nat, doff: nat, eoff: nat, oldpos: nat, newpos: nat,
                       coff': nat, doff': nat, eoff': nat, oldpos': int, newpos': nat)
    requires Produces(base, target, t, db, eb, newpos, oldpos, doff, eoff) && Holds(out, c, db, eb) &&
        Reads(out, coff, t)
    requires newpos < |target| < TWO_63 && coff' == coff + 24 && doff' == doff + t.add && eoff' == eoff + t.copy
    requires oldpos' == oldpos + t.add + t.seek && newpos' == newpos + t.add + t.copy
    ensures RunFrom(base, out, coff, |c| + doff, |c| + |db| + eoff, oldpos, |target|, target[..newpos]) ==
            RunFrom(base, out, coff', |c| + doff', |c| + |db| + eoff', oldpos', |target|, target[..newpos'])
  {
    SuppliesFromBlocks(base, target, t, c, db, eb, out, newpos, oldpos, doff, eoff);
    ReplayTurn(base, target, out, t, coff, |c| + doff, |c| + |db| + eoff, oldpos, newpos,
               coff', |c| + doff', |c| + |db| + eoff', oldpos', newpos');
  }

  lemma PrefixInRange(base: seq<Byte>, target: seq<Byte>, ts: seq<Triple>, db: seq<Byte>, eb: seq<Byte>, k: nat)
    requires Describes(base, target, ts, db, eb) && k <= |ts|
    ensures var p := ts[..k]; 0 <= DiffLen(p) <= |db| && 0 <= ExtraLen(p) <= |eb| && 0 <= NewPos(p) <= |target|
  {
    DescribesPrefix(base, target, ts, db, eb, k);
    CursorsNonNegative(base, target, ts[..k], db, eb);
  }

  lemma ReplayDone(base: seq<Byte>, target: seq<Byte>, out: seq<Byte>, coff: nat, doff: nat, eoff: nat, oldpos: int,
                   newpos: nat)
    requires doff <= |out| && eoff <= |out| && newpos == |target|
    ensures RunFrom(base, out, coff, doff, eoff, oldpos, |target|, target[..newpos]) == Patched(target)
  {
    assert target[..newpos] == target;
  }

  /** From any triple on, the interpreter completes the target. */
  lemma {:induction false} ReplayFrom(base: seq<Byte>, target: seq<Byte>, ts: seq<Triple>, db: seq<Byte>, eb: seq<Byte>,
                                      c: seq<Byte>, out: seq<Byte>, k: nat, coff: nat, doff: nat, eoff: nat,
                                      oldpos: int, newpos: nat)
    requires Describes(base, target, ts, db, eb) && NewPos(ts) == |target| < TWO_63
    requires c == CtrlBytes(ts) && Holds(out, c, db, eb) && k <= |ts| && coff == 24 * k
    requires doff == DiffLen(ts[..k]) <= |db| && eoff == ExtraLen(ts[..k]) <= |eb|
    requires oldpos == OldPos(ts[..k]) && newpos == NewPos(ts[..k]) <= |target|
    ensures RunFrom(base, out, coff, |c| + doff, |c| + |db| + eoff, oldpos, |target|, target[..newpos])
        == Patched(target)
    decreases |ts| - k
  {
    if newpos == |target| {
      ReplayDone(base, target, out, coff, |c| + doff, |c| + |db| + eoff, oldpos, newpos);
    } else {
      StillTriples(ts, k, |target|);
      var t := ts[k];
      var coff', doff', eoff' := coff + 24, doff + t.add, eoff + t.copy;
      var oldpos', newpos' := oldpos + t.add + t.seek, newpos + t.add + t.copy;
      NextCursors(base, target, ts, db, eb, k, doff, eoff, oldpos, newpos);
      ReplayFrom(base, target, ts, db, eb, c, out, k + 1, coff', doff', eoff', oldpos', newpos');
      TripleAt(ts, c, db, eb, out, k);
      TurnFromBlocks(base, target, t, c, db, eb, out, coff, doff, eoff, oldpos, newpos, coff', doff', eoff', oldpos',
                     newpos');
    }
  }

  lemma StillTriples(ts: seq<Triple>, k: nat, n: nat)
    requires k <= |ts| && NewPos(ts) == n != NewPos(ts[..k])
    ensures k < |ts|
  {
    assert ts[..|ts|] == ts;
  }

  lemma NextCursors(base: seq<Byte>, target: seq<Byte>, ts: seq<Triple>, db: seq<Byte>, eb: seq<Byte>,
                    k: nat, doff: nat, eoff: nat, oldpos: int, newpos: nat)
    requires Describes(base, target, ts, db, eb) && k < |ts|
    requires doff == DiffLen(ts[..k]) && eoff == ExtraLen(ts[..k]) && oldpos == OldPos(ts[..k]) &&
        newpos == NewPos(ts[..k])
    ensures Produces(base, target, ts[k], db, eb, newpos, oldpos, doff, eoff)
    ensures 0 <= doff + ts[k].add == DiffLen(ts[..k + 1]) <= |db| &&
        0 <= eoff + ts[k].copy == ExtraLen(ts[..k + 1]) <= |eb|
    ensures oldpos + ts[k].add + ts[k].seek == OldPos(ts[..k + 1])
    ensures 0 <= newpos + ts[k].add + ts[k].copy == NewPos(ts[..k + 1]) <= |target|
  {
    DescribesStep(base, target, ts, db, eb, k);
    PrefixInRange(base, target, ts, db, eb, k + 1);
  }

  /** A file laid out as the header says, with blocks that decompress to c, db and eb. */
  ghost predicate LaidOut(patch: seq<Byte>, dz: Codec, newsize: int, c: seq<Byte>, db: seq<Byte>, eb: seq<Byte>) {
    && |patch| >= 32 && patch[..8] == MAGIC
    && Decode(patch[24..32]) == newsize
    && var x, y := Decode(patch[8..16]), Decode(patch[16..24]);
    && 0 <= x && 0 <= y && 32 + x + y <= |patch|
    && var p, q, r := patch[32..32 + x], patch[32 + x..32 + x + y], patch[32 + x + y..];
    && dz([], p) == Some(c) && dz([p], q) == Some(db) && dz([p, q], r) == Some(eb)
  }

  lemma ApplyLaidOut(base: seq<Byte>, patch: seq<Byte>, dz: Codec, newsize: nat, c: seq<Byte>, db: seq<Byte>,
                     eb: seq<Byte>)
    requires LaidOut(patch, dz, newsize, c, db, eb) && |patch| < TWO_32
    ensures |c| + |db| + |eb| >= TWO_32 ==> Apply(base, patch, dz) == Undefined
    ensures |c| + |db| + |eb| < TWO_32 && newsize + 1 < TWO_32 ==>
              Apply(base, patch, dz) == RunFrom(base, c + db + eb, 0, |c|, |c| + |db|, 0, newsize, [])
  {
    assert Blocks(patch, dz) == Some((c, db, eb));
    assert newsize < TWO_32 ==> newsize % TWO_32 == newsize;
  }

  lemma SameReplay(base: seq<Byte>, out: seq<Byte>, coff: nat, doff: nat, eoff: nat, oldpos: int, newsize: nat,
                   built: seq<Byte>,
                   coff': nat, doff': nat, eoff': nat, oldpos': int, built': seq<Byte>)
    requires doff <= |out| && eoff <= |out|
    requires coff == coff' && doff == doff' && eoff == eoff' && oldpos == oldpos' && built == built'
    ensures RunFrom(base, out, coff, doff, eoff, oldpos, newsize, built)
        == RunFrom(base, out, coff', doff', eoff', oldpos', newsize, built')
  {
  }

  /** The interpreter completes the target from the start. */
  lemma ReplayWhole(base: seq<Byte>, target: seq<Byte>, ts: seq<Triple>, db: seq<Byte>, eb: seq<Byte>, c: seq<Byte>)
    requires Describes(base, target, ts, db, eb) && NewPos(ts) == |target| < TWO_63 && c == CtrlBytes(ts)
    ensures RunFrom(base, c + db + eb, 0, |c|, |c| + |db|, 0, |target|, []) == Patched(target)
  {
    ConcatHolds(c, db, eb);
    assert ts[..0] == [];
    ReplayFrom(base, target, ts, db, eb, c, c + db + eb, 0, 0, 0, 0, 0, 0);
    SameReplay(base, c + db + eb, 24 * 0, |c| + 0, |c| + |db| + 0, 0, |target|, target[..0],
               0, |c|, |c| + |db|, 0, []);
  }

  lemma PackIsLaidOut(newsize: Offset, z: seq<Byte> -> seq<Byte>, dz: Codec, c: seq<Byte>, db: seq<Byte>,
                      eb: seq<Byte>, patch: seq<Byte>)
    requires Inverts(z, dz)
    requires |z(c)| < TWO_63 && |z(db)| < TWO_63 && patch == Pack(newsize, z(c), z(db), z(eb))
    ensures LaidOut(patch, dz, newsize, c, db, eb)
  {
    ReadHeader(patch, newsize, z(c), z(db), z(eb));
    assert TakesBack(z, dz, c, db, eb);
  }

  /** ApplyPatch recovers the target from a patch that describes it exactly when the 32-bit
      counters hold the file and the decompressed blocks. */
  lemma RoundTrip(base: seq<Byte>, target: seq<Byte>, ts: seq<Triple>, db: seq<Byte>, eb: seq<Byte>,
                  z: seq<Byte> -> seq<Byte>, dz: Codec, patch: seq<Byte>)
    requires Describes(base, target, ts, db, eb) && NewPos(ts) == |target| < TWO_63
    requires Inverts(z, dz)
    requires |z(CtrlBytes(ts))| < TWO_63 && |z(db)| < TWO_63
    requires patch == Pack(|target|, z(CtrlBytes(ts)), z(db), z(eb))
    ensures Apply(base, patch, dz) == Patched(target) <==> |patch| < TWO_32 && 24 * |ts| + |db| + |eb| < TWO_32
  {
    var c := CtrlBytes(ts);
    PackIsLaidOut(|target|, z, dz, c, db, eb, patch);
    DescribedSize(base, target, ts, db, eb);
    if |patch| < TWO_32 {
      ApplyLaidOut(base, patch, dz, |target|, c, db, eb);
      ReplayWhole(base, target, ts, db, eb, c);
    }
  }

  /** The described target is no longer than its difference and extra bytes together. */
  lemma DescribedSize(base: seq<Byte>, target: seq<Byte>, ts: seq<Triple>, db: seq<Byte>, eb: seq<Byte>)
    requires Describes(base, target, ts, db, eb)
    ensures 0 <= NewPos(ts) <= |db| + |eb|
  {
    CursorsNonNegative(base, target, ts, db, eb);
    Conserved(ts);
  }

  lemma ConcatHolds(c: seq<Byte>, db: seq<Byte>, eb: seq<Byte>)
    ensures Holds(c + db + eb, c, db, eb)
  {
  }

  /** The section boundaries that the reader computes are those of the writer. */
  lemma ReadHeader(patch: seq<Byte>, newsize: Offset, c: seq<Byte>, d: seq<Byte>, e: seq<Byte>)
    requires |c| < TWO_63 && |d| < TWO_63 && patch == Pack(newsize, c, d, e)
    ensures |patch| == 32 + |c| + |d| + |e|
    ensures patch[..8] == [66, 83, 68, 73, 70, 70, 52, 48]
    ensures Decode(patch[8..16]) == |c| && Decode(patch[16..24]) == |d| && Decode(patch[24..32]) == newsize
    ensures patch[32..32 + |c|] == c && patch[32 + |c|..32 + |c| + |d|] == d && patch[32 + |c| + |d|..] == e
  {
    HeaderSlices(patch, Header(|c|, |d|, newsize), |c|, |d|, newsize, c, d, e);
    DecodeEncode(|c|);
    DecodeEncode(|d|);
    DecodeEncode(newsize);
  }

  lemma HeaderSlices(patch: seq<Byte>, h: seq<Byte>, x: Offset, y: Offset, newsize: Offset, c: seq<Byte>,
                     d: seq<Byte>, e: seq<Byte>)
    requires h == Header(x, y, newsize) && patch == h + c + d + e
    ensures patch[..8] == MAGIC && patch[8..16] == Encode(x) && patch[16..24] == Encode(y) &&
        patch[24..32] == Encode(newsize)
    ensures patch[32..32 + |c|] == c && patch[32 + |c|..32 + |c| + |d|] == d && patch[32 + |c| + |d|..] == e
  {
    HeaderFields(h, x, y, newsize);
    FourParts(patch, h, c, d, e);
    SliceOfSlice(patch, 0, 32, 0, 8);
    SliceOfSlice(patch, 0, 32, 8, 16);
    SliceOfSlice(patch, 0, 32, 16, 24);
    SliceOfSlice(patch, 0, 32, 24, 32);
  }

  lemma HeaderFields(h: seq<Byte>, x: Offset, y: Offset, newsize: Offset)
    requires h == Header(x, y, newsize)
    ensures h[..8] == MAGIC && h[8..16] == Encode(x) && h[16..24] == Encode(y) && h[24..32] == Encode(newsize)
  {
    FourParts(h, MAGIC, Encode(x), Encode(y), Encode(newsize));
  }

  lemma FourParts(s: seq<Byte>, h: seq<Byte>, c: seq<Byte>, d: seq<Byte>, e: seq<Byte>)
    requires s == h + c + d + e
    ensures |s| == |h| + |c| + |d| + |e| && s[..|h|] == h
    ensures s[|h|..|h| + |c|] == c && s[|h| + |c|..|h| + |c| + |d|] == d && s[|h| + |c| + |d|..] == e
  {
  }
}
