/** What a patch says: control triples, difference bytes and extra bytes, and how the three are
    laid out behind the header. */
module PatchFormat {
  import opened SuffixOrder
  import opened OffT

  /** Add `add` bytes of the base to difference bytes, copy `copy` extra bytes, then move on by
      `seek` in the base. */
  datatype Triple = Triple(add: Offset, copy: Offset, seek: Offset)

  // ---------------------------------------------------------------- cursors after a list of triples

  ghost function NewPos(ts: seq<Triple>): int {
    if ts == [] then 0 else NewPos(ts[..|ts| - 1]) + ts[|ts| - 1].add + ts[|ts| - 1].copy
  }

  ghost function OldPos(ts: seq<Triple>): int {
    if ts == [] then 0 else OldPos(ts[..|ts| - 1]) + ts[|ts| - 1].add + ts[|ts| - 1].seek
  }

  ghost function DiffLen(ts: seq<Triple>): int {
    if ts == [] then 0 else DiffLen(ts[..|ts| - 1]) + ts[|ts| - 1].add
  }

  ghost function ExtraLen(ts: seq<Triple>): int {
    if ts == [] then 0 else ExtraLen(ts[..|ts| - 1]) + ts[|ts| - 1].copy
  }

  // ---------------------------------------------------------------- meaning

  function Plus(a: Byte, b: Byte): Byte {
    (a as int + b as int) % 256
  }

  function Minus(a: Byte, b: Byte): Byte {
    (a as int - b as int) % 256
  }

  /** Byte-wise sum, wrapping around. */
  function Sum(d: seq<Byte>, o: seq<Byte>): (r: seq<Byte>)
    requires |d| == |o|
    ensures |r| == |d|
  {
    seq(|d|, i requires 0 <= i < |d| => Plus(d[i], o[i]))
  }

  /** Triple t, met at the given cursors, produces the right stretch of target from base. */
  ghost predicate Produces(base: seq<Byte>, target: seq<Byte>, t: Triple, db: seq<Byte>, eb: seq<Byte>,
                           newpos: int, oldpos: int, doff: int, eoff: int) {
    && 0 <= t.add && 0 <= t.copy
    && 0 <= newpos && newpos + t.add + t.copy <= |target|
    && 0 <= oldpos && oldpos + t.add <= |base|
    && oldpos + t.add < TWO_63 && -TWO_63 <= oldpos + t.add + t.seek < TWO_63
    && 0 <= doff && doff + t.add <= |db|
    && 0 <= eoff && eoff + t.copy <= |eb|
    && Sum(db[doff..doff + t.add], base[oldpos..oldpos + t.add]) == target[newpos..newpos + t.add]
    && eb[eoff..eoff + t.copy] == target[newpos + t.add..newpos + t.add + t.copy]
  }

  /** The triples ts with the difference and extra bytes describe target[..NewPos(ts)]. */
  ghost predicate Describes(base: seq<Byte>, target: seq<Byte>, ts: seq<Triple>, db: seq<Byte>, eb: seq<Byte>) {
    ts != [] ==>
      var p, t := ts[..|ts| - 1], ts[|ts| - 1];
      Describes(base, target, p, db, eb)
      && Produces(base, target, t, db, eb, NewPos(p), OldPos(p), DiffLen(p), ExtraLen(p))
  }

  lemma {:induction false} DescribesPrefix(base: seq<Byte>, target: seq<Byte>, ts: seq<Triple>, db: seq<Byte>,
                                           eb: seq<Byte>, k: nat)
    requires Describes(base, target, ts, db, eb) && k <= |ts|
    ensures Describes(base, target, ts[..k], db, eb)
    decreases |ts|
  {
    if k == |ts| {
      assert ts[..k] == ts;
    } else {
      DescribesPrefix(base, target, ts[..|ts| - 1], db, eb, k);
      assert ts[..|ts| - 1][..k] == ts[..k];
    }
  }

  /** The k-th triple, at the cursors that the ones before it lead to. */
  lemma DescribesStep(base: seq<Byte>, target: seq<Byte>, ts: seq<Triple>, db: seq<Byte>, eb: seq<Byte>, k: nat)
    requires Describes(base, target, ts, db, eb) && k < |ts|
    ensures var p := ts[..k]; Produces(base, target, ts[k], db, eb, NewPos(p), OldPos(p), DiffLen(p), ExtraLen(p))
    ensures var p, q := ts[..k], ts[..k + 1];
      && NewPos(q) == NewPos(p) + ts[k].add + ts[k].copy && OldPos(q) == OldPos(p) + ts[k].add + ts[k].seek
      && DiffLen(q) == DiffLen(p) + ts[k].add && ExtraLen(q) == ExtraLen(p) + ts[k].copy
  {
    var q := ts[..k + 1];
    DescribesPrefix(base, target, ts, db, eb, k + 1);
    assert q[..|q| - 1] == ts[..k] && q[|q| - 1] == ts[k];
  }

  /** One more triple. */
  lemma DescribesMore(base: seq<Byte>, target: seq<Byte>, ts: seq<Triple>, db: seq<Byte>, eb: seq<Byte>, t: Triple,
                      newpos: int, oldpos: int, doff: int, eoff: int)
    requires Describes(base, target, ts, db, eb)
    requires newpos == NewPos(ts) && oldpos == OldPos(ts) && doff == DiffLen(ts) && eoff == ExtraLen(ts)
    requires Produces(base, target, t, db, eb, newpos, oldpos, doff, eoff)
    ensures Describes(base, target, ts + [t], db, eb)
    ensures NewPos(ts + [t]) == newpos + t.add + t.copy && OldPos(ts + [t]) == oldpos + t.add + t.seek
    ensures DiffLen(ts + [t]) == doff + t.add && ExtraLen(ts + [t]) == eoff + t.copy
  {
    var q := ts + [t];
    assert q[..|q| - 1] == ts && q[|q| - 1] == t;
  }

  /** Conservation: the bytes described are the difference bytes and the extra bytes used. */
  lemma {:induction false} Conserved(ts: seq<Triple>)
    ensures NewPos(ts) == DiffLen(ts) + ExtraLen(ts)
  {
    if ts != [] {
      Conserved(ts[..|ts| - 1]);
    }
  }

  lemma {:induction false} CursorsNonNegative(base: seq<Byte>, target: seq<Byte>, ts: seq<Triple>, db: seq<Byte>,
                                              eb: seq<Byte>)
    requires Describes(base, target, ts, db, eb)
    ensures 0 <= DiffLen(ts) <= |db| && 0 <= ExtraLen(ts) <= |eb| && 0 <= NewPos(ts) <= |target|
  {
    if ts != [] {
      CursorsNonNegative(base, target, ts[..|ts| - 1], db, eb);
    }
  }

  /** Bytes beyond the ones used do not matter. */
  lemma {:induction false} DescribesFrame(base: seq<Byte>, target: seq<Byte>, ts: seq<Triple>,
                                          db: seq<Byte>, eb: seq<Byte>, db': seq<Byte>, eb': seq<Byte>)
    requires Describes(base, target, ts, db, eb)
    requires DiffLen(ts) <= |db'| && ExtraLen(ts) <= |eb'|
    requires 0 <= DiffLen(ts) <= |db| && db[..DiffLen(ts)] == db'[..DiffLen(ts)]
    requires 0 <= ExtraLen(ts) <= |eb| && eb[..ExtraLen(ts)] == eb'[..ExtraLen(ts)]
    ensures Describes(base, target, ts, db', eb')
  {
    if ts != [] {
      var p, t := ts[..|ts| - 1], ts[|ts| - 1];
      CursorsNonNegative(base, target, p, db, eb);
      SliceOfPrefix(db, db', DiffLen(p), DiffLen(ts));
      SliceOfPrefix(eb, eb', ExtraLen(p), ExtraLen(ts));
      DescribesFrame(base, target, p, db, eb, db', eb');
      ProducesFrame(base, target, t, db, eb, db', eb', NewPos(p), OldPos(p), DiffLen(p), ExtraLen(p));
    }
  }

  lemma ProducesFrame(base: seq<Byte>, target: seq<Byte>, t: Triple, db: seq<Byte>, eb: seq<Byte>,
                      db': seq<Byte>, eb': seq<Byte>, newpos: int, oldpos: int, doff: int, eoff: int)
    requires Produces(base, target, t, db, eb, newpos, oldpos, doff, eoff)
    requires doff + t.add <= |db'| && db[doff..doff + t.add] == db'[doff..doff + t.add]
    requires eoff + t.copy <= |eb'| && eb[eoff..eoff + t.copy] == eb'[eoff..eoff + t.copy]
    ensures Produces(base, target, t, db', eb', newpos, oldpos, doff, eoff)
  {
  }

  lemma SliceOfPrefix(d: seq<Byte>, d': seq<Byte>, lo: int, hi: int)
    requires 0 <= lo <= hi <= |d| && hi <= |d'| && d[..hi] == d'[..hi]
    ensures d[lo..hi] == d'[lo..hi] && d[..lo] == d'[..lo]
  {
    assert d[lo..hi] == d[..hi][lo..] && d[..lo] == d[..hi][..lo];
    assert d'[lo..hi] == d'[..hi][lo..] && d'[..lo] == d'[..hi][..lo];
  }

  // ---------------------------------------------------------------- layout

  ghost function TripleBytes(t: Triple): (c: seq<Byte>)
    ensures |c| == 24
    ensures c[..8] == Encode(t.add) && c[8..16] == Encode(t.copy) && c[16..] == Encode(t.seek)
  {
    Encode(t.add) + Encode(t.copy) + Encode(t.seek)
  }

  /** The control block: three offsets a triple. */
  ghost function CtrlBytes(ts: seq<Triple>): (c: seq<Byte>)
    ensures |c| == 24 * |ts|
  {
    if ts == [] then [] else CtrlBytes(ts[..|ts| - 1]) + TripleBytes(ts[|ts| - 1])
  }

  lemma CtrlAt(ts: seq<Triple>, k: nat)
    requires k < |ts|
    ensures CtrlBytes(ts)[24 * k..24 * k + 24] == TripleBytes(ts[k])
  {
    CtrlSlice(ts, k, 24 * k, 24 * k + 24);
  }

  lemma {:induction false} CtrlSlice(ts: seq<Triple>, k: nat, lo: nat, hi: nat)
    requires k < |ts| && lo == 24 * k && hi == lo + 24
    ensures hi <= |CtrlBytes(ts)| && CtrlBytes(ts)[lo..hi] == TripleBytes(ts[k])
    decreases |ts|
  {
    var n := |ts| - 1;
    var front, last := CtrlBytes(ts[..n]), TripleBytes(ts[n]);
    assert |front| == 24 * n;
    SliceOfConcat(front, last, lo, hi);
    if k < n {
      CtrlSlice(ts[..n], k, lo, hi);
    }
  }

  lemma SliceOfConcat(d: seq<Byte>, e: seq<Byte>, lo: int, hi: int)
    requires 0 <= lo <= hi <= |d + e|
    ensures hi <= |d| ==> (d + e)[lo..hi] == d[lo..hi]
    ensures lo == |d| && hi == |d + e| ==> (d + e)[lo..hi] == e
  {
  }

  /** "BSDIFF40" */
  const MAGIC: seq<Byte> := [66, 83, 68, 73, 70, 70, 52, 48]

  /** The header, given the sizes of the first two compressed blocks and of the target. */
  ghost function Header(x: Offset, y: Offset, newsize: Offset): (h: seq<Byte>)
    ensures |h| == 32
  {
    MAGIC + Encode(x) + Encode(y) + Encode(newsize)
  }

  /** A patch file: header, then control, difference and extra blocks, each compressed. */
  ghost function Pack(newsize: Offset, c: seq<Byte>, d: seq<Byte>, e: seq<Byte>): seq<Byte>
    requires |c| < TWO_63 && |d| < TWO_63
  {
    Header(|c|, |d|, newsize) + c + d + e
  }
}
