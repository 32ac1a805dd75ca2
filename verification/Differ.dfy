/** CreatePatchInternal: scanning the target for matches, and turning each match into a triple. */
module Differ {
  import opened SuffixOrder
  import opened OffT
  import opened PatchFormat
  import opened Extensions
  import Matching
  import QSufSort
  import Patcher

  // ---------------------------------------------------------------- scanning

  /** target[q] equals the base at distance offset. */
  predicate AgreesAt(base: seq<Byte>, target: seq<Byte>, offset: int, q: int)
    requires 0 <= q < |target|
  {
    0 <= q + offset < |base| && base[q + offset] == target[q]
  }

  /** How many bytes of target[a..b] equal the base at distance offset. */
  ghost function Agree(base: seq<Byte>, target: seq<Byte>, offset: int, a: int, b: int): nat
    requires 0 <= a && b <= |target|
    decreases b - a
  {
    if a >= b then 0
    else Agree(base, target, offset, a, b - 1) + (if AgreesAt(base, target, offset, b - 1) then 1 else 0)
  }

  lemma {:induction false} AgreeHead(base: seq<Byte>, target: seq<Byte>, offset: int, a: int, b: int)
    requires 0 <= a < b <= |target|
    ensures Agree(base, target, offset, a, b)
        == Agree(base, target, offset, a + 1, b) + (if AgreesAt(base, target, offset, a) then 1 else 0)
    decreases b - a
  {
    if a + 1 < b {
      AgreeHead(base, target, offset, a, b - 1);
    }
  }

  /** It is the number of places where they are equal. */
  lemma {:induction false} AgreeCounts(base: seq<Byte>, target: seq<Byte>, offset: int, a: int, b: int)
    requires 0 <= a && b <= |target|
    ensures Agree(base, target, offset, a, b)
         == |set q | a <= q < b && 0 <= q + offset < |base| && base[q + offset] == target[q]|
    decreases b - a
  {
    var equal := set q | a <= q < b && 0 <= q + offset < |base| && base[q + offset] == target[q];
    if a < b {
      AgreeCounts(base, target, offset, a, b - 1);
      var before := set q | a <= q < b - 1 && 0 <= q + offset < |base| && base[q + offset] == target[q];
      assert equal == if AgreesAt(base, target, offset, b - 1) then before + {b - 1} else before;
    }
  }

  /** The score kept while scanning: the agreeing bytes of [scan, scsc), or less the one byte
      that has been passed without having been counted. */
  ghost function Score(base: seq<Byte>, target: seq<Byte>, offset: int, scan: int, scsc: int): int
    requires 0 <= scan <= |target| && 0 <= scsc <= |target|
  {
    Agree(base, target, offset, scan, scsc) - Agree(base, target, offset, scsc, scan)
  }

  lemma ScorePasses(base: seq<Byte>, target: seq<Byte>, offset: int, scan: int, scsc: int)
    requires 0 <= scan <= scsc <= |target| && scan < |target|
    ensures Score(base, target, offset, scan + 1, scsc) ==
            Score(base, target, offset, scan, scsc) - (if AgreesAt(base, target, offset, scan) then 1 else 0)
  {
    if scan < scsc {
      AgreeHead(base, target, offset, scan, scsc);
    }
  }

  lemma ScoreGrows(base: seq<Byte>, target: seq<Byte>, offset: int, scan: int, scsc: int)
    requires 0 <= scan <= |target| && scan - 1 <= scsc < |target| && 0 <= scsc
    ensures Score(base, target, offset, scan, scsc + 1) ==
            Score(base, target, offset, scan, scsc) + (if AgreesAt(base, target, offset, scsc) then 1 else 0)
  {
    if scsc == scan - 1 {
      assert Agree(base, target, offset, scsc, scan)
          == Agree(base, target, offset, scsc, scsc) + (if AgreesAt(base, target, offset, scsc) then 1 else 0);
    }
  }

  /** The for loop over scsc: brings the score up to the end of the match. */
  method ExtendScore(base: seq<Byte>, target: seq<Byte>, lastoffset: int, scan: nat, len: nat, scsc0: nat, score0: int)
    returns (scsc: nat, oldscore: int)
    requires scan + len <= |target| && scan - 1 <= scsc0 <= |target|
    requires score0 == Score(base, target, lastoffset, scan, scsc0)
    requires scsc0 + lastoffset >= 0
    ensures scsc == if scsc0 < scan + len then scan + len else scsc0
    ensures oldscore == Agree(base, target, lastoffset, scan, scsc)
  {
    scsc, oldscore := scsc0, score0;
    while scsc < scan + len
      invariant scsc0 <= scsc && (scsc <= scan + len || scsc == scsc0)
      invariant scsc <= |target| && oldscore == Score(base, target, lastoffset, scan, scsc)
    {
      ScoreGrows(base, target, lastoffset, scan, scsc);
      if scsc + lastoffset < |base| && base[scsc + lastoffset] == target[scsc] {
        oldscore := oldscore + 1;
      }
      scsc := scsc + 1;
    }
  }

  /** I holds one suffix position of base for each of them. */
  ghost predicate Positions(I: seq<int>, base: seq<Byte>) {
    |I| == |base| + 1 && forall k :: 0 <= k < |I| ==> 0 <= I[k] <= |base|
  }

  /** What search finds for target[q..]. */
  ghost function Lookup(I: seq<int>, base: seq<Byte>, target: seq<Byte>, q: nat): (int, int)
    requires Positions(I, base) && q <= |target|
  {
    Matching.Found(I, base, target[q..], 0, |base|)
  }

  /** The furthest end of the matches found from scan0 up to q, but at least scan0. */
  ghost function Reach(I: seq<int>, base: seq<Byte>, target: seq<Byte>, scan0: nat, q: int): int
    requires Positions(I, base) && q <= |target|
    decreases q - scan0
  {
    if q < scan0 then scan0
    else
      var r, e := Reach(I, base, target, scan0, q - 1), q + Lookup(I, base, target, q).0;
      if r < e then e else r
  }

  /** The scan that began at scan0 stops at q: the match there is what the last offset gives
      anyway up to the furthest match end, or beats it by more than eight bytes. */
  ghost predicate StopsAt(I: seq<int>, base: seq<Byte>, target: seq<Byte>, lastoffset: int, scan0: nat, q: nat)
    requires Positions(I, base) && q <= |target|
  {
    var len, reach := Lookup(I, base, target, q).0, Reach(I, base, target, scan0, q);
    && reach <= |target|
    && var score := Agree(base, target, lastoffset, q, reach);
    (len == score && len != 0) || len > score + 8
  }

  lemma ReachStep(I: seq<int>, base: seq<Byte>, target: seq<Byte>, scan0: nat, q: nat, before: int, end: int)
    requires Positions(I, base) && scan0 <= q <= |target|
    requires before == Reach(I, base, target, scan0, q - 1) && end == q + Lookup(I, base, target, q).0
    ensures Reach(I, base, target, scan0, q) == if before < end then end else before
  {
  }

  /** The greatest of some ends and scan0. */
  ghost function Furthest(ends: seq<int>, scan0: int): int {
    if ends == [] then scan0
    else
      var r, e := Furthest(ends[..|ends| - 1], scan0), ends[|ends| - 1];
      if r < e then e else r
  }

  lemma {:induction false} FurthestCovers(ends: seq<int>, scan0: int)
    ensures forall k :: 0 <= k < |ends| ==> ends[k] <= Furthest(ends, scan0)
  {
    if ends != [] {
      var before := ends[..|ends| - 1];
      FurthestCovers(before, scan0);
      assert forall k :: 0 <= k < |before| ==> ends[k] == before[k];
    }
  }

  lemma {:induction false} FurthestAtMost(ends: seq<int>, scan0: int, r: int)
    requires scan0 <= r && forall k :: 0 <= k < |ends| ==> ends[k] <= r
    ensures Furthest(ends, scan0) <= r
  {
    if ends != [] {
      FurthestAtMost(ends[..|ends| - 1], scan0, r);
    }
  }

  lemma {:induction false} ReachFurthest(I: seq<int>, base: seq<Byte>, target: seq<Byte>, scan0: nat, q: int,
                                         ends: seq<int>)
    requires Positions(I, base) && scan0 - 1 <= q <= |target| && |ends| == q + 1 - scan0
    requires forall p :: scan0 <= p <= q ==> p + Lookup(I, base, target, p).0 == ends[p - scan0]
    ensures Reach(I, base, target, scan0, q) == Furthest(ends, scan0)
    decreases q - scan0
  {
    if scan0 <= q {
      var before := ends[..|ends| - 1];
      ReachFurthest(I, base, target, scan0, q - 1, before);
      ReachStep(I, base, target, scan0, q, Furthest(before, scan0), ends[q - scan0]);
    }
  }

  /** The furthest end is what it says: the end of a match from scan0 on, and none ends further on. */
  lemma ReachIs(I: seq<int>, base: seq<Byte>, target: seq<Byte>, scan0: nat, q: int, p: nat, r: int)
    requires Positions(I, base) && scan0 <= p <= q <= |target| && r == p + Lookup(I, base, target, p).0
    requires forall k :: scan0 <= k <= q ==> k + Lookup(I, base, target, k).0 <= r
    ensures Reach(I, base, target, scan0, q) == r
  {
    Matching.FoundFits(I, base, target[p..], 0, |base|);
    var n := q + 1 - scan0;
    var ends := seq(n, i requires 0 <= i < n => scan0 + i + Lookup(I, base, target, scan0 + i).0);
    ReachFurthest(I, base, target, scan0, q, ends);
    FurthestCovers(ends, scan0);
    FurthestAtMost(ends, scan0, r);
    assert ends[p - scan0] == r;
  }

  /** Where the inner scan stops, from the matches alone: r is how far the matches found since scan0 reach, and n
      the number of bytes from q to there that the last offset gives anyway. The match at q has n bytes and is
      not empty, or has more than eight bytes more. */
  lemma StopsExactly(I: seq<int>, base: seq<Byte>, target: seq<Byte>, lastoffset: int, scan0: nat, q: nat,
                     len: nat, r: nat, n: nat)
    requires Positions(I, base) && scan0 <= q <= |target| && len == Lookup(I, base, target, q).0
    requires forall p :: scan0 <= p <= q ==> p + Lookup(I, base, target, p).0 <= r
    requires exists p :: scan0 <= p <= q && p + Lookup(I, base, target, p).0 == r
    ensures r <= |target|
    ensures n == |set p | q <= p < r && 0 <= p + lastoffset < |base| && base[p + lastoffset] == target[p]| ==>
              (StopsAt(I, base, target, lastoffset, scan0, q) <==> (0 < len == n) || n + 8 < len)
  {
    var p :| scan0 <= p <= q && p + Lookup(I, base, target, p).0 == r;
    Matching.FoundFits(I, base, target[p..], 0, |base|);
    assert q + len <= r;
    ReachIs(I, base, target, scan0, q, p, r);
    AgreeCounts(base, target, lastoffset, q, r);
  }

  /** What the last search gave when a scan that began at scan0, with what is given, has come to scan. */
  ghost function Latest(I: seq<int>, base: seq<Byte>, target: seq<Byte>, scan0: nat, given: (int, int), scan: nat):
      (int, int)
    requires Positions(I, base) && scan0 <= scan <= |target|
  {
    if scan == scan0 then given else Lookup(I, base, target, scan - 1)
  }

  /** The scan that began at scan0 stops at scan for the first time, or runs to the end, where the
      length and position stay those of the last search. */
  ghost predicate FirstStop(I: seq<int>, base: seq<Byte>, target: seq<Byte>, lastoffset: int, scan0: int,
                            given: (int, int), scan: int, len: int, pos: int, score: int)
    requires Positions(I, base)
  {
    && 0 <= scan0 <= scan <= |target| && 0 <= pos <= |base|
    && (forall q :: scan0 <= q < scan ==> !StopsAt(I, base, target, lastoffset, scan0, q))
    && (scan < |target| ==>
          && StopsAt(I, base, target, lastoffset, scan0, scan)
          && (len, pos) == Lookup(I, base, target, scan)
          && score == Agree(base, target, lastoffset, scan, Reach(I, base, target, scan0, scan)))
    && (scan == |target| ==> (len, pos) == Latest(I, base, target, scan0, given, scan))
  }

  /** The search at one place of the inner scan loop, and the score it is compared with. */
  method Probe(I: array<int>, base: seq<Byte>, target: seq<Byte>, scan0: nat, scan: nat, lastoffset: int,
               scsc0: nat, score0: int)
    returns (len: nat, pos: nat, scsc: nat, oldscore: nat)
    requires Positions(I[..], base)
    requires scan0 <= scan < |target| && scan - 1 <= scsc0 <= |target| && scan0 <= scsc0 && scan0 + lastoffset >= 0
    requires score0 == Score(base, target, lastoffset, scan, scsc0)
    requires scsc0 == Reach(I[..], base, target, scan0, scan - 1)
    ensures (len, pos) == Lookup(I[..], base, target, scan) && pos <= |base|
    ensures Matching.AgreeFor(base, pos, target, scan, len) && scan + len <= |target|
    ensures scsc == Reach(I[..], base, target, scan0, scan) && scan0 <= scsc <= |target| && scan <= scsc
    ensures oldscore == Agree(base, target, lastoffset, scan, scsc)
  {
    assert forall k :: 0 <= k < I.Length ==> I[k] == I[..][k];
    len, pos := Matching.Search(I, base, target, scan, 0, |base|);
    scsc, oldscore := ExtendScore(base, target, lastoffset, scan, len, scsc0, score0);
  }

  /** The inner scan has come to scan without stopping: the score is kept up to the furthest match. */
  ghost predicate Scanning(I: seq<int>, base: seq<Byte>, target: seq<Byte>, lastoffset: int, scan0: nat, scan: nat,
                           scsc: nat, score: int)
    requires Positions(I, base)
  {
    && scan0 <= scan <= |target| && scan0 <= scsc <= |target| && scan - 1 <= scsc
    && score == Score(base, target, lastoffset, scan, scsc)
    && scsc == Reach(I, base, target, scan0, scan - 1)
    && forall q :: scan0 <= q < scan ==> !StopsAt(I, base, target, lastoffset, scan0, q)
  }

  lemma StopDecided(I: seq<int>, base: seq<Byte>, target: seq<Byte>, lastoffset: int, scan0: nat, scan: nat,
                    len: nat, reach: nat, score: nat)
    requires Positions(I, base) && scan < |target| && reach <= |target|
    requires len == Lookup(I, base, target, scan).0 && reach == Reach(I, base, target, scan0, scan)
    requires score == Agree(base, target, lastoffset, scan, reach)
    ensures StopsAt(I, base, target, lastoffset, scan0, scan) <==> (len == score && len != 0) || len > score + 8
  {
  }

  lemma ScanningPasses(I: seq<int>, base: seq<Byte>, target: seq<Byte>, lastoffset: int, scan0: nat, scan: nat,
                       scsc0: nat, score0: int, scsc: nat, score: nat, next: nat)
    requires Positions(I, base) && Scanning(I, base, target, lastoffset, scan0, scan, scsc0, score0)
    requires scan < |target| && next == scan + 1 && scan <= scsc <= |target| && scan0 <= scsc
    requires scsc == Reach(I, base, target, scan0, scan) && score == Agree(base, target, lastoffset, scan, scsc)
    requires !StopsAt(I, base, target, lastoffset, scan0, scan)
    ensures Scanning(I, base, target, lastoffset, scan0, next, scsc,
                     if AgreesAt(base, target, lastoffset, scan) then score - 1 else score)
  {
    ScorePasses(base, target, lastoffset, scan, scsc);
    assert next - 1 == scan;
  }

  /** One turn of the inner scan loop: it stops, or passes on to the next place. */
  method ScanStep(I: array<int>, base: seq<Byte>, target: seq<Byte>, scan0: nat, scan: nat, lastoffset: int,
                  scsc0: nat, score0: int, ghost given: (int, int))
    returns (stop: bool, len: nat, pos: nat, scsc: nat, oldscore: int)
    requires Positions(I[..], base) && scan < |target| && scan0 + lastoffset >= 0
    requires Scanning(I[..], base, target, lastoffset, scan0, scan, scsc0, score0)
    ensures pos <= |base| && (len, pos) == Lookup(I[..], base, target, scan)
    ensures stop ==>
      && FirstStop(I[..], base, target, lastoffset, scan0, given, scan, len, pos, oldscore)
      && Matching.AgreeFor(base, pos, target, scan, len) && scan + len <= |target|
      && 0 < len && 0 <= oldscore && (len == oldscore || len > oldscore + 8)
    ensures !stop ==> Scanning(I[..], base, target, lastoffset, scan0, scan + 1, scsc, oldscore)
  {
    ghost var J := I[..];
    len, pos, scsc, oldscore := Probe(I, base, target, scan0, scan, lastoffset, scsc0, score0);
    StopDecided(J, base, target, lastoffset, scan0, scan, len, scsc, oldscore);
    stop := (len == oldscore && len != 0) || len > oldscore + 8;
    if !stop {
      ScanningPasses(J, base, target, lastoffset, scan0, scan, scsc0, score0, scsc, oldscore, scan + 1);
      if scan + lastoffset < |base| && base[scan + lastoffset] == target[scan] {
        oldscore := oldscore - 1;
      }
    }
  }

  /** The inner scan loop from scan0 on: it ends at the first place that StopsAt, where the match
      is not empty, or at the end of the target. */
  method FindNext(I: array<int>, base: seq<Byte>, target: seq<Byte>, scan0: nat, len0: int, pos0: nat, lastoffset: int)
    returns (scan: nat, len: int, pos: nat, oldscore: int)
    requires Positions(I[..], base)
    requires scan0 <= |target| && pos0 <= |base| && scan0 + lastoffset >= 0
    ensures FirstStop(I[..], base, target, lastoffset, scan0, (len0, pos0), scan, len, pos, oldscore)
    ensures scan < |target| ==>
              && Matching.AgreeFor(base, pos, target, scan, len) && scan + len <= |target|
              && 0 < len && 0 <= oldscore && (len == oldscore || len > oldscore + 8)
  {
    scan, len, pos := scan0, len0, pos0;
    oldscore := 0;
    var scsc := scan;
    while scan < |target|
      invariant pos <= |base| && Scanning(I[..], base, target, lastoffset, scan0, scan, scsc, oldscore)
      invariant (len, pos) == Latest(I[..], base, target, scan0, (len0, pos0), scan)
      decreases |target| - scan
    {
      var stop;
      stop, len, pos, scsc, oldscore := ScanStep(I, base, target, scan0, scan, lastoffset, scsc, oldscore,
                                                (len0, pos0));
      if stop {
        return;
      }
      scan := scan + 1;
    }
  }

  // ---------------------------------------------------------------- one triple

  /** How the stretch between two matches is divided: the best extensions of the last match
      forward (f0 bytes) and of the next one backward (b0), cut where they overlap. */
  ghost predicate Divided(base: seq<Byte>, target: seq<Byte>, lastpos: int, lastscan: int, pos: int, scan: int,
                          f0: int, b0: int, cut: int, lenf: int, lenb: int)
    requires 0 <= lastpos <= |base| && 0 <= pos <= |base| && 0 <= lastscan <= scan <= |target|
  {
    && BestForward(base, lastpos, target, lastscan, scan, f0)
    && (if scan < |target| then BestBackward(base, pos, target, lastscan, scan, b0) else b0 == 0)
    && var overlap := lastscan + f0 - (scan - b0);
    if overlap <= 0 then lenf == f0 && lenb == b0
    else
      && 0 <= scan - b0 - lastscan && overlap <= b0
      && BestCut(base, lastpos + f0 - overlap, pos - b0, target, scan - b0, overlap, cut)
      && lenf == f0 + cut - overlap && lenb == b0 - cut
  }

  method Divide(base: seq<Byte>, target: seq<Byte>, lastpos: nat, lastscan: nat, pos: nat, scan: nat)
    returns (lenf: nat, lenb: nat, ghost f0: int, ghost b0: int, ghost cut: int)
    requires lastpos <= |base| && pos <= |base| && lastscan <= scan <= |target|
    ensures Divided(base, target, lastpos, lastscan, pos, scan, f0, b0, cut, lenf, lenb)
    ensures lastscan + lenf <= scan - lenb && lastpos + lenf <= |base| && lenb <= pos
    ensures scan == |target| ==> lenb == 0
  {
    lenf := ForwardExtent(base, lastpos, target, lastscan, scan);
    lenb := 0;
    if scan < |target| {
      lenb := BackwardExtent(base, pos, target, lastscan, scan);
    }
    f0, b0, cut := lenf, lenb, 0;
    if lastscan + lenf > scan - lenb {
      var overlap := lastscan + lenf - (scan - lenb);
      var lens := CutOverlap(base, lastpos + lenf - overlap, pos - lenb, target, scan - lenb, overlap);
      lenf := lenf + lens - overlap;
      lenb := lenb - lens;
      cut := lens;
    }
  }

  /** The difference bytes of a triple. */
  method WriteDiff(db: array<Byte>, dblen: nat, base: seq<Byte>, lastpos: nat, target: seq<Byte>, lastscan: nat,
                   lenf: nat)
    requires dblen + lenf <= db.Length && lastpos + lenf <= |base| && lastscan + lenf <= |target|
    modifies db
    ensures db[..dblen] == old(db[..dblen])
    ensures Sum(db[dblen..dblen + lenf], base[lastpos..lastpos + lenf]) == target[lastscan..lastscan + lenf]
  {
    ghost var o, n := base[lastpos..lastpos + lenf], target[lastscan..lastscan + lenf];
    for i := 0 to lenf
      invariant db[..dblen] == old(db[..dblen])
      invariant forall k :: 0 <= k < i ==> db[dblen..dblen + lenf][k] == Minus(n[k], o[k])
    {
      db[dblen + i] := Minus(target[lastscan + i], base[lastpos + i]);
      assert db[dblen..dblen + lenf][i] == Minus(n[i], o[i]);
    }
    MinusUndone(db[dblen..dblen + lenf], o, n);
  }

  lemma MinusUndone(d: seq<Byte>, o: seq<Byte>, n: seq<Byte>)
    requires |d| == |o| == |n| && forall k :: 0 <= k < |d| ==> d[k] == Minus(n[k], o[k])
    ensures Sum(d, o) == n
  {
    forall k | 0 <= k < |d|
      ensures Sum(d, o)[k] == n[k]
    {
      PlusMinus(n[k], o[k]);
    }
  }

  lemma PlusMinus(a: Byte, b: Byte)
    ensures Plus(Minus(a, b), b) == a
  {
  }

  /** The extra bytes of a triple. */
  method WriteExtra(eb: array<Byte>, eblen: nat, target: seq<Byte>, from: nat, len: nat)
    requires eblen + len <= eb.Length && from + len <= |target|
    modifies eb
    ensures eb[..eblen] == old(eb[..eblen])
    ensures eb[eblen..eblen + len] == target[from..from + len]
  {
    for i := 0 to len
      invariant eb[..eblen] == old(eb[..eblen])
      invariant eb[eblen..eblen + i] == target[from..from + i]
    {
      eb[eblen + i] := target[from + i];
    }
  }

  /** The state of the differ: the triples so far describe target[..lastscan] and leave the
      base cursor at lastpos. */
  ghost predicate Emitted(base: seq<Byte>, target: seq<Byte>, ts: seq<Triple>, db: seq<Byte>, eb: seq<Byte>,
                          dblen: int, eblen: int, lastscan: int, lastpos: int) {
    && |db| == |eb| == |target| + 1 && |base| < TWO_63 && |target| < TWO_63
    && Describes(base, target, ts, db, eb)
    && DiffLen(ts) == dblen && ExtraLen(ts) == eblen && 0 <= dblen && 0 <= eblen
    && NewPos(ts) == lastscan == dblen + eblen && 0 <= lastscan <= |target|
    && OldPos(ts) == lastpos && 0 <= lastpos <= |base|
  }

  lemma EmittedMore(base: seq<Byte>, target: seq<Byte>, ts: seq<Triple>, db0: seq<Byte>, eb0: seq<Byte>,
                    db: seq<Byte>, eb: seq<Byte>,
                    dblen: nat, eblen: nat, lastscan: nat, lastpos: nat, t: Triple, nextscan: nat, nextpos: nat)
    requires Emitted(base, target, ts, db0, eb0, dblen, eblen, lastscan, lastpos)
    requires |db| == |db0| && |eb| == |eb0| && db[..dblen] == db0[..dblen] && eb[..eblen] == eb0[..eblen]
    requires 0 <= t.add && 0 <= t.copy && nextscan == lastscan + t.add + t.copy && nextpos == lastpos + t.add + t.seek
    requires nextscan <= |target| && lastpos + t.add <= |base| && nextpos <= |base|
    requires Sum(db[dblen..dblen + t.add], base[lastpos..lastpos + t.add]) == target[lastscan..lastscan + t.add]
    requires eb[eblen..eblen + t.copy] == target[lastscan + t.add..lastscan + t.add + t.copy]
    ensures Emitted(base, target, ts + [t], db, eb, dblen + t.add, eblen + t.copy, nextscan, nextpos)
  {
    DescribesFrame(base, target, ts, db0, eb0, db, eb);
    DescribesMore(base, target, ts, db, eb, t, lastscan, lastpos, dblen, eblen);
  }

  /** Writes what triple t needs behind the first dblen difference and eblen extra bytes. */
  method WriteTriple(base: seq<Byte>, target: seq<Byte>, lastpos: nat, lastscan: nat, t: Triple,
                     db: array<Byte>, dblen: nat, eb: array<Byte>, eblen: nat)
    requires db != eb && 0 <= t.add && 0 <= t.copy && dblen + t.add <= db.Length && eblen + t.copy <= eb.Length
    requires lastscan + t.add + t.copy <= |target| && lastpos + t.add <= |base|
    modifies db, eb
    ensures db[..dblen] == old(db[..dblen]) && eb[..eblen] == old(eb[..eblen])
    ensures Sum(db[dblen..dblen + t.add], base[lastpos..lastpos + t.add]) == target[lastscan..lastscan + t.add]
    ensures eb[eblen..eblen + t.copy] == target[lastscan + t.add..lastscan + t.add + t.copy]
  {
    WriteDiff(db, dblen, base, lastpos, target, lastscan, t.add);
    WriteExtra(eb, eblen, target, lastscan + t.add, t.copy);
  }

  /** One emission: the triple for the stretch up to the match at pos, scan. */
  method Emit(base: seq<Byte>, target: seq<Byte>, lastpos: nat, lastscan: nat, pos: nat, scan: nat,
              db: array<Byte>, dblen: nat, eb: array<Byte>, eblen: nat, ghost ts: seq<Triple>)
    returns (t: Triple, lenb: nat, ghost f0: int, ghost b0: int, ghost cut: int)
    requires db != eb && pos <= |base| && lastscan <= scan <= |target|
    requires Emitted(base, target, ts, db[..], eb[..], dblen, eblen, lastscan, lastpos)
    modifies db, eb
    ensures 0 <= t.add && 0 <= t.copy && lenb <= pos && lenb <= scan && (scan == |target| ==> lenb == 0)
    ensures Divided(base, target, lastpos, lastscan, pos, scan, f0, b0, cut, t.add, lenb)
    ensures t.copy == (scan - lenb) - (lastscan + t.add) && t.seek == (pos - lenb) - (lastpos + t.add)
    ensures Emitted(base, target, ts + [t], db[..], eb[..], dblen + t.add, eblen + t.copy, scan - lenb, pos - lenb)
  {
    var lenf;
    lenf, lenb, f0, b0, cut := Divide(base, target, lastpos, lastscan, pos, scan);
    t := Triple(lenf, (scan - lenb) - (lastscan + lenf), (pos - lenb) - (lastpos + lenf));
    ghost var db0, eb0 := db[..], eb[..];
    WriteTriple(base, target, lastpos, lastscan, t, db, dblen, eb, eblen);
    EmittedMore(base, target, ts, db0, eb0, db[..], eb[..], dblen, eblen, lastscan, lastpos, t, scan - lenb,
                pos - lenb);
  }

  // ---------------------------------------------------------------- the whole scan

  /** One turn of the outer loop: where the inner scan stopped, what it found there, and how the
      stretch before was divided if a triple was emitted. */
  datatype Visit = Visit(scan: nat, len: int, pos: nat, score: int, f0: int, b0: int, cut: int, lenb: int) {
    predicate Emits(newsize: nat) {
      len != score || scan == newsize
    }
  }

  ghost function NextScan(vs: seq<Visit>): int {
    if vs == [] then 0 else vs[|vs| - 1].scan + vs[|vs| - 1].len
  }

  /** Length and position that the turns so far leave behind. */
  ghost function LastMatch(vs: seq<Visit>): (int, int) {
    if vs == [] then (0, 0) else (vs[|vs| - 1].len, vs[|vs| - 1].pos)
  }

  /** The distance between base and target at the last match that was emitted. */
  ghost function LastOffset(vs: seq<Visit>, newsize: nat): int {
    if vs == [] then 0
    else if vs[|vs| - 1].Emits(newsize) then vs[|vs| - 1].pos - vs[|vs| - 1].scan
    else LastOffset(vs[..|vs| - 1], newsize)
  }

  /** Triple t covers target from lastscan, base from lastpos, up to the match of v. */
  ghost predicate TripleOf(base: seq<Byte>, target: seq<Byte>, lastpos: int, lastscan: int, v: Visit, t: Triple) {
    && 0 <= lastpos <= |base| && 0 <= lastscan <= v.scan <= |target| && v.pos <= |base|
    && Divided(base, target, lastpos, lastscan, v.pos, v.scan, v.f0, v.b0, v.cut, t.add, v.lenb)
    && t.copy == (v.scan - v.lenb) - (lastscan + t.add)
    && t.seek == (v.pos - v.lenb) - (lastpos + t.add)
  }

  /** The visits vs are the turns of the outer loop on base and target, and ts what they emit. */
  ghost predicate Trace(I: seq<int>, base: seq<Byte>, target: seq<Byte>, vs: seq<Visit>, ts: seq<Triple>)
    requires Positions(I, base)
    decreases |vs|
  {
    if vs == [] then ts == []
    else
      var us, v := vs[..|vs| - 1], vs[|vs| - 1];
      && FirstStop(I, base, target, LastOffset(us, |target|), NextScan(us), LastMatch(us), v.scan, v.len, v.pos,
                   v.score)
      && if v.Emits(|target|) then
           && ts != []
           && Trace(I, base, target, us, ts[..|ts| - 1])
           && TripleOf(base, target, OldPos(ts[..|ts| - 1]), NewPos(ts[..|ts| - 1]), v, ts[|ts| - 1])
         else
           Trace(I, base, target, us, ts)
  }

  /** Turn j emitted, and none after it. */
  ghost predicate EmitsLast(vs: seq<Visit>, j: nat, newsize: nat)
    requires j < |vs|
  {
    && (vs[j].len != vs[j].score || vs[j].scan == newsize)
    && forall k :: j < k < |vs| ==> vs[k].len == vs[k].score && vs[k].scan != newsize
  }

  lemma {:induction false} LastOffsetIs(vs: seq<Visit>, newsize: nat, offset: int)
    requires (offset == 0 && forall k :: 0 <= k < |vs| ==> vs[k].len == vs[k].score && vs[k].scan != newsize) ||
             exists j :: 0 <= j < |vs| && EmitsLast(vs, j, newsize) && offset == vs[j].pos - vs[j].scan
    ensures LastOffset(vs, newsize) == offset
    decreases |vs|
  {
    if vs != [] && !vs[|vs| - 1].Emits(newsize) {
      var us := vs[..|vs| - 1];
      if j :| 0 <= j < |vs| && EmitsLast(vs, j, newsize) && offset == vs[j].pos - vs[j].scan {
        assert EmitsLast(us, j, newsize);
      }
      LastOffsetIs(us, newsize, offset);
    }
  }

  /** The last turn of a trace, in the fields of the turns before it. It starts where the match of the one before
      ends, and searches at every place until it stops, with the distance that the last turn that emitted has
      left; and it emits exactly if the match is not what that distance gives, or at the end of the target. */
  lemma TurnExactly(I: seq<int>, base: seq<Byte>, target: seq<Byte>, vs: seq<Visit>, ts: seq<Triple>, v: Visit,
                    start: int, offset: int)
    requires Positions(I, base) && Trace(I, base, target, vs + [v], ts)
    requires start == if vs == [] then 0 else vs[|vs| - 1].scan + vs[|vs| - 1].len
    requires (offset == 0 && forall k :: 0 <= k < |vs| ==> vs[k].len == vs[k].score && vs[k].scan != |target|) ||
             exists j :: 0 <= j < |vs| && EmitsLast(vs, j, |target|) && offset == vs[j].pos - vs[j].scan
    ensures 0 <= start <= v.scan <= |target|
    ensures forall q :: start <= q < v.scan ==> !StopsAt(I, base, target, offset, start, q)
    ensures v.scan < |target| ==>
      && StopsAt(I, base, target, offset, start, v.scan)
      && (v.len, v.pos) == Matching.Found(I, base, target[v.scan..], 0, |base|)
      && v.score == Agree(base, target, offset, v.scan, Reach(I, base, target, start, v.scan))
    ensures v.scan == |target| ==>
      (v.len, v.pos) ==
        if start < v.scan then Matching.Found(I, base, target[v.scan - 1..], 0, |base|)
        else if vs == [] then (0, 0) else (vs[|vs| - 1].len, vs[|vs| - 1].pos)
    ensures v.len == v.score && v.scan != |target| ==> Trace(I, base, target, vs, ts)
    ensures v.len != v.score || v.scan == |target| ==>
      && ts != []
      && var p, t := ts[..|ts| - 1], ts[|ts| - 1];
      && Trace(I, base, target, vs, p)
      && NewPos(p) + t.add + t.copy == v.scan - v.lenb && OldPos(p) + t.add + t.seek == v.pos - v.lenb
      && Divided(base, target, OldPos(p), NewPos(p), v.pos, v.scan, v.f0, v.b0, v.cut, t.add, v.lenb)
  {
    assert (vs + [v])[..|vs|] == vs;
    LastOffsetIs(vs, |target|, offset);
  }

  lemma TraceEmits(I: seq<int>, base: seq<Byte>, target: seq<Byte>, vs: seq<Visit>, ts: seq<Triple>, next: int,
                   v: Visit, t: Triple)
    requires Positions(I, base) && Trace(I, base, target, vs, ts) && v.Emits(|target|) && next == NextScan(vs)
    requires FirstStop(I, base, target, LastOffset(vs, |target|), next, LastMatch(vs), v.scan, v.len, v.pos, v.score)
    requires TripleOf(base, target, OldPos(ts), NewPos(ts), v, t)
    ensures Trace(I, base, target, vs + [v], ts + [t])
    ensures NextScan(vs + [v]) == v.scan + v.len && LastOffset(vs + [v], |target|) == v.pos - v.scan
  {
    assert (vs + [v])[..|vs|] == vs && (ts + [t])[..|ts|] == ts;
  }

  lemma TracePasses(I: seq<int>, base: seq<Byte>, target: seq<Byte>, vs: seq<Visit>, ts: seq<Triple>, next: int,
                    v: Visit)
    requires Positions(I, base) && Trace(I, base, target, vs, ts) && !v.Emits(|target|) && next == NextScan(vs)
    requires FirstStop(I, base, target, LastOffset(vs, |target|), next, LastMatch(vs), v.scan, v.len, v.pos, v.score)
    ensures Trace(I, base, target, vs + [v], ts)
    ensures NextScan(vs + [v]) == v.scan + v.len && LastOffset(vs + [v], |target|) == LastOffset(vs, |target|)
  {
    assert (vs + [v])[..|vs|] == vs;
  }

  /** Three times offtout and Compress: the control bytes of a triple. */
  method TripleToBytes(t: Triple) returns (b: seq<Byte>)
    ensures b == TripleBytes(t)
  {
    var buf := new Byte[8];
    OffTOut(t.add, buf, 0);
    b := buf[..];
    OffTOut(t.copy, buf, 0);
    b := b + buf[..];
    OffTOut(t.seek, buf, 0);
    b := b + buf[..];
  }

  /** The cursors of the outer loop, and how much of db and eb is filled. */
  datatype Cursors = Cursors(scan: nat, len: int, pos: nat, lastscan: nat, lastpos: nat, lastoffset: int,
                             dblen: nat, eblen: nat)

  /** The turns of the outer loop so far, and what they emitted. */
  datatype History = History(vs: seq<Visit>, ts: seq<Triple>)

  /** The differ's cursors and history between two turns of the outer loop. */
  ghost predicate Between(I: seq<int>, base: seq<Byte>, target: seq<Byte>, h: History, ctrl: seq<Byte>, c: Cursors) {
    && Positions(I, base) && Trace(I, base, target, h.vs, h.ts)
    && ctrl == CtrlBytes(h.ts)
    && c.lastscan <= c.scan <= |target| && c.pos <= |base| && c.scan + c.lastoffset >= 0
    && c.lastoffset == LastOffset(h.vs, |target|) && (c.len, c.pos) == LastMatch(h.vs)
    && if c.scan == |target| then c.lastscan == |target| && 9 * (|h.ts| - 1) <= |target|
       else
         && 0 <= c.len && c.scan + c.len <= |target| && (c.len > 0 || h.vs == [])
         && c.scan + c.len == NextScan(h.vs) && 9 * |h.ts| <= c.scan + c.len
  }

  /** The buffers hold what the history emitted. */
  ghost predicate Filled(base: seq<Byte>, target: seq<Byte>, h: History, db: seq<Byte>, eb: seq<Byte>, c: Cursors) {
    Emitted(base, target, h.ts, db, eb, c.dblen, c.eblen, c.lastscan, c.lastpos)
  }

  /** The cursors after a triple whose match reaches back by lenb bytes. */
  function Moved(c: Cursors, t: Triple, lenb: nat): Cursors
    requires lenb <= c.scan && lenb <= c.pos && 0 <= t.add && 0 <= t.copy
  {
    c.(lastscan := c.scan - lenb, lastpos := c.pos - lenb, lastoffset := c.pos - c.scan,
       dblen := c.dblen + t.add, eblen := c.eblen + t.copy)
  }

  lemma BetweenEmits(I: seq<int>, base: seq<Byte>, target: seq<Byte>, h: History, ctrl: seq<Byte>, c: Cursors,
                     t: Triple, lenb: nat)
    requires Positions(I, base) && Trace(I, base, target, h.vs, h.ts) && ctrl == CtrlBytes(h.ts)
    requires NextScan(h.vs) == c.scan + c.len && (c.len, c.pos) == LastMatch(h.vs)
    requires LastOffset(h.vs, |target|) == c.pos - c.scan
    requires 0 <= t.add && 0 <= t.copy && lenb <= c.scan <= |target| && lenb <= c.pos <= |base|
    requires c.scan == |target| ==> lenb == 0
    requires c.scan < |target| ==> 0 < c.len && c.scan + c.len <= |target|
    requires if c.scan == |target| then 9 * (|h.ts| - 1) <= |target| else 9 * |h.ts| <= c.scan + c.len
    ensures Between(I, base, target, h, ctrl, Moved(c, t, lenb))
  {
  }

  lemma BetweenPasses(I: seq<int>, base: seq<Byte>, target: seq<Byte>, h: History, ctrl: seq<Byte>,
                      c0: Cursors, next: int, c: Cursors, v: Visit, h1: History)
    requires h1 == History(h.vs + [v], h.ts)
    requires Between(I, base, target, h, ctrl, c0) && c0.scan < |target| && next == c0.scan + c0.len
    requires c == c0.(scan := v.scan, len := v.len, pos := v.pos) && v.len == v.score
    requires FirstStop(I, base, target, c0.lastoffset, next, LastMatch(h.vs), v.scan, v.len, v.pos, v.score)
    requires v.scan < |target| && 0 < v.len && v.scan + v.len <= |target|
    ensures Between(I, base, target, h1, ctrl, c)
  {
    TracePasses(I, base, target, h.vs, h.ts, next, v);
  }

  lemma HistoryEmits(I: seq<int>, base: seq<Byte>, target: seq<Byte>, h: History, ctrl: seq<Byte>, c: Cursors,
                     next: int, v: Visit, t: Triple)
    requires Positions(I, base) && Trace(I, base, target, h.vs, h.ts) && ctrl == CtrlBytes(h.ts)
    requires c.lastoffset == LastOffset(h.vs, |target|) && next == NextScan(h.vs) && v.Emits(|target|)
    requires v.scan == c.scan && v.len == c.len && v.pos == c.pos
    requires FirstStop(I, base, target, c.lastoffset, next, LastMatch(h.vs), v.scan, v.len, v.pos, v.score)
    requires OldPos(h.ts) == c.lastpos && NewPos(h.ts) == c.lastscan
    requires TripleOf(base, target, c.lastpos, c.lastscan, v, t)
    requires 0 <= t.add && 0 <= t.copy && 0 <= v.lenb <= c.scan && v.lenb <= c.pos
    requires c.scan == |target| ==> v.lenb == 0
    requires 9 * |h.ts| <= next && (c.scan < |target| ==> 8 < c.len && c.scan + c.len <= |target|)
    ensures Between(I, base, target, History(h.vs + [v], h.ts + [t]), ctrl + TripleBytes(t), Moved(c, t, v.lenb))
  {
    TraceEmits(I, base, target, h.vs, h.ts, next, v, t);
    assert (h.ts + [t])[..|h.ts|] == h.ts;
    BetweenEmits(I, base, target, History(h.vs + [v], h.ts + [t]), ctrl + TripleBytes(t), c, t, v.lenb);
  }

  /** The emission of a turn: the triple, and the visit that records how it was divided. */
  method EmitVisit(base: seq<Byte>, target: seq<Byte>, db: array<Byte>, eb: array<Byte>, c: Cursors, oldscore: int,
                   ghost h0: History)
    returns (t: Triple, lenb: nat, ghost v: Visit)
    requires db != eb && c.pos <= |base| && c.lastscan <= c.scan <= |target|
    requires Filled(base, target, h0, db[..], eb[..], c)
    modifies db, eb
    ensures v.scan == c.scan && v.len == c.len && v.pos == c.pos && v.score == oldscore && v.lenb == lenb
    ensures 0 <= t.add && 0 <= t.copy && lenb <= c.scan && lenb <= c.pos && (c.scan == |target| ==> lenb == 0)
    ensures TripleOf(base, target, c.lastpos, c.lastscan, v, t)
    ensures Filled(base, target, History(h0.vs + [v], h0.ts + [t]), db[..], eb[..], Moved(c, t, lenb))
  {
    ghost var f0, b0, cut;
    t, lenb, f0, b0, cut := Emit(base, target, c.lastpos, c.lastscan, c.pos, c.scan, db, c.dblen, eb, c.eblen, h0.ts);
    v := Visit(c.scan, c.len, c.pos, oldscore, f0, b0, cut, lenb);
  }

  /** A turn that emits, once the inner scan has stopped with the scan, length and position in c. */
  method TurnEmits(base: seq<Byte>, target: seq<Byte>, db: array<Byte>, eb: array<Byte>, ctrl0: seq<Byte>,
                   c: Cursors, oldscore: int, ghost next: int, ghost I: seq<int>, ghost h0: History)
    returns (ctrl: seq<Byte>, d: Cursors, ghost h: History)
    requires db != eb && c.lastscan <= c.scan && (c.len != oldscore || c.scan == |target|)
    requires Filled(base, target, h0, db[..], eb[..], c)
    requires Positions(I, base) && Trace(I, base, target, h0.vs, h0.ts) && ctrl0 == CtrlBytes(h0.ts)
    requires c.lastoffset == LastOffset(h0.vs, |target|) && next == NextScan(h0.vs)
    requires FirstStop(I, base, target, c.lastoffset, next, LastMatch(h0.vs), c.scan, c.len, c.pos, oldscore)
    requires 9 * |h0.ts| <= next && (c.scan < |target| ==> 8 < c.len && c.scan + c.len <= |target|)
    modifies db, eb
    ensures |h.vs| == |h0.vs| + 1 && d.scan == c.scan && d.len == c.len
    ensures Filled(base, target, h, db[..], eb[..], d)
    ensures Between(I, base, target, h, ctrl, d)
  {
    var t, lenb;
    ghost var v;
    t, lenb, v := EmitVisit(base, target, db, eb, c, oldscore, h0);
    HistoryEmits(I, base, target, h0, ctrl0, c, next, v, t);
    var b := TripleToBytes(t);
    ctrl, d, h := ctrl0 + b, Moved(c, t, lenb), History(h0.vs + [v], h0.ts + [t]);
  }

  lemma FilledPasses(base: seq<Byte>, target: seq<Byte>, h0: History, db: seq<Byte>, eb: seq<Byte>, c0: Cursors,
                     h: History, c: Cursors)
    requires Filled(base, target, h0, db, eb, c0) && h.ts == h0.ts
    requires c == c0.(scan := c.scan, len := c.len, pos := c.pos)
    ensures Filled(base, target, h, db, eb, c)
  {
  }

  /** The inner scan of a turn, in terms of the cursors. */
  method NextStop(I: array<int>, base: seq<Byte>, target: seq<Byte>, c0: Cursors, next: nat, ghost last: (int, int))
    returns (c: Cursors, oldscore: int)
    requires Positions(I[..], base) && next <= |target| && c0.pos <= |base| && next + c0.lastoffset >= 0
    requires last == (c0.len, c0.pos)
    ensures c == c0.(scan := c.scan, len := c.len, pos := c.pos) && next <= c.scan <= |target|
    ensures FirstStop(I[..], base, target, c0.lastoffset, next, last, c.scan, c.len, c.pos, oldscore)
    ensures c.scan < |target| ==>
              0 < c.len && c.scan + c.len <= |target| && 0 <= oldscore && (c.len == oldscore || c.len > oldscore + 8)
  {
    var scan, len, pos;
    scan, len, pos, oldscore := FindNext(I, base, target, next, c0.len, c0.pos, c0.lastoffset);
    c := c0.(scan := scan, len := len, pos := pos);
  }

  lemma TurnPasses(I: seq<int>, base: seq<Byte>, target: seq<Byte>, h0: History, ctrl: seq<Byte>, db: seq<Byte>,
                   eb: seq<Byte>, c0: Cursors, next: nat, c: Cursors, oldscore: int) returns (h: History)
    requires Filled(base, target, h0, db, eb, c0) && Between(I, base, target, h0, ctrl, c0) && c0.scan < |target|
    requires c == c0.(scan := c.scan, len := c.len, pos := c.pos) && c.len == oldscore && next == c0.scan + c0.len
    requires FirstStop(I, base, target, c0.lastoffset, next, LastMatch(h0.vs), c.scan, c.len, c.pos, oldscore)
    requires c.scan < |target| && 0 < c.len && c.scan + c.len <= |target|
    ensures |h.vs| == |h0.vs| + 1
    ensures Filled(base, target, h, db, eb, c)
    ensures Between(I, base, target, h, ctrl, c)
  {
    var v := Visit(c.scan, c.len, c.pos, oldscore, 0, 0, 0, 0);
    h := History(h0.vs + [v], h0.ts);
    BetweenPasses(I, base, target, h0, ctrl, c0, next, c, v, h);
    FilledPasses(base, target, h0, db, eb, c0, h, c);
  }

  /** One turn of the outer loop. */
  method Turn(I: array<int>, base: seq<Byte>, target: seq<Byte>, db: array<Byte>, eb: array<Byte>, ctrl0: seq<Byte>,
              c0: Cursors, ghost J: seq<int>, ghost h0: History)
    returns (ctrl: seq<Byte>, c: Cursors, ghost h: History)
    requires db != eb && c0.scan < |target| && J == I[..]
    requires Filled(base, target, h0, db[..], eb[..], c0)
    requires Between(J, base, target, h0, ctrl0, c0)
    modifies db, eb
    ensures c0.scan + c0.len <= c.scan <= |target| && |h.vs| == |h0.vs| + 1 && (c.scan < |target| ==> c.len > 0)
    ensures Filled(base, target, h, db[..], eb[..], c)
    ensures Between(J, base, target, h, ctrl, c)
  {
    var oldscore;
    var next := c0.scan + c0.len;
    c, oldscore := NextStop(I, base, target, c0, next, LastMatch(h0.vs));
    if c.len != oldscore || c.scan == |target| {
      FilledPasses(base, target, h0, db[..], eb[..], c0, h0, c);
      ctrl, c, h := TurnEmits(base, target, db, eb, ctrl0, c, oldscore, next, J, h0);
    } else {
      h := TurnPasses(J, base, target, h0, ctrl0, db[..], eb[..], c0, next, c, oldscore);
      ctrl := ctrl0;
    }
  }

  /** The outer loop. Its turns are those of Trace; the triples describe the whole target, and
      there is at most one for every nine bytes of it, plus one. */
  method Scan(I: array<int>, base: seq<Byte>, target: seq<Byte>, db: array<Byte>, eb: array<Byte>)
    returns (ctrl: seq<Byte>, dblen: nat, eblen: nat, ghost vs: seq<Visit>, ghost ts: seq<Triple>)
    requires Positions(I[..], base)
    requires db != eb && db.Length == eb.Length == |target| + 1 && |base| < TWO_63 && |target| < TWO_63
    modifies db, eb
    ensures Trace(I[..], base, target, vs, ts) && ctrl == CtrlBytes(ts)
    ensures Describes(base, target, ts, db[..], eb[..]) && NewPos(ts) == |target| == dblen + eblen
    ensures DiffLen(ts) == dblen <= |target| && ExtraLen(ts) == eblen <= |target|
    ensures 9 * (|ts| - 1) <= |target|
  {
    ghost var J, h := I[..], History([], []);
    var c := Cursors(0, 0, 0, 0, 0, 0, 0, 0);
    ctrl := [];
    while c.scan < |target|
      invariant I[..] == J
      invariant Filled(base, target, h, db[..], eb[..], c)
      invariant Between(J, base, target, h, ctrl, c)
      decreases |target| - c.scan, if h.vs == [] then 1 else 0
    {
      ctrl, c, h := Turn(I, base, target, db, eb, ctrl, c, J, h);
    }
    dblen, eblen, vs, ts := c.dblen, c.eblen, h.vs, h.ts;
  }

  // ---------------------------------------------------------------- the patch file

  /** A block compressor: it loses nothing, and expands a block by little. */
  ghost predicate IsCodec(z: seq<Byte> -> seq<Byte>, dz: Patcher.Codec) {
    && Patcher.Inverts(z, dz)
    && (forall s :: |z(s)| <= 2 * |s| + 600)
  }

  method WriteMagic(header: array<Byte>)
    requires header.Length == 32
    modifies header
    ensures header[..8] == MAGIC
  {
    for i := 0 to 8
      invariant header[..i] == MAGIC[..i]
    {
      header[i] := MAGIC[i];
    }
  }

  method WriteHeader(x: Offset, y: Offset, newsize: Offset) returns (header: array<Byte>)
    ensures header[..] == Header(x, y, newsize)
  {
    header := new Byte[32];
    WriteMagic(header);
    ghost var h0 := header[..];
    OffTOut(x, header, 8);
    ghost var h1 := header[..];
    OffTOut(y, header, 16);
    ghost var h2 := header[..];
    OffTOut(newsize, header, 24);
    HeaderFromParts(h0, h1, h2, header[..], x, y, newsize);
  }

  lemma HeaderFromParts(h0: seq<Byte>, h1: seq<Byte>, h2: seq<Byte>, h: seq<Byte>, x: Offset, y: Offset,
                        newsize: Offset)
    requires |h0| == |h1| == |h2| == |h| == 32 && h0[..8] == MAGIC
    requires h1 == h0[..8] + Encode(x) + h0[16..]
    requires h2 == h1[..16] + Encode(y) + h1[24..]
    requires h == h2[..24] + Encode(newsize) + h2[32..]
    ensures h == Header(x, y, newsize)
  {
    assert h1[..16] == MAGIC + Encode(x);
    assert h2[..24] == MAGIC + Encode(x) + Encode(y);
  }

  /** What the differ ends with. Undefined is where the sizes of the patch wrap in 32 bits. */
  datatype Attempt = Written(patch: seq<Byte>) | Undefined

  /** What the compressor is given of a block: its length is passed in 32 bits. */
  function Low(s: seq<Byte>): seq<Byte> {
    s[..|s| % Patcher.TWO_32]
  }

  /** The size of the patch. */
  function Packed(z: seq<Byte> -> seq<Byte>, ctrl: seq<Byte>, db: seq<Byte>, eb: seq<Byte>): nat {
    32 + |z(ctrl)| + |z(Low(db))| + |z(Low(eb))|
  }

  /** What is left once the triples are known: compress the three blocks and lay them out. */
  method PackBlocks(ctrl: seq<Byte>, db: seq<Byte>, eb: seq<Byte>, newsize: Offset, z: seq<Byte> -> seq<Byte>)
    returns (r: Attempt)
    ensures r.Written? <==> Packed(z, ctrl, db, eb) < Patcher.TWO_32
    ensures r.Written? ==> r.patch == Pack(newsize, z(ctrl), z(Low(db)), z(Low(eb)))
  {
    var c, d, e := z(ctrl), z(db[..|db| % Patcher.TWO_32]), z(eb[..|eb| % Patcher.TWO_32]);
    if |c| + |d| + |e| + 32 >= Patcher.TWO_32 {
      return Undefined;
    }
    var header := WriteHeader(|c|, |d|, newsize);
    r := Written(header[..] + c + d + e);
  }

  lemma DescribesTrimmed(base: seq<Byte>, target: seq<Byte>, ts: seq<Triple>, db: seq<Byte>, eb: seq<Byte>,
                         dblen: nat, eblen: nat)
    requires Describes(base, target, ts, db, eb)
    requires DiffLen(ts) == dblen <= |db| && ExtraLen(ts) == eblen <= |eb|
    ensures Describes(base, target, ts, db[..dblen], eb[..eblen])
  {
    DescribesFrame(base, target, ts, db, eb, db[..dblen], eb[..eblen]);
  }

  /** Files of 2^60 bytes: no address space of 64 bits holds more entries of off_t. */
  const MAX_FILE := 0x1000_0000_0000_0000

  /** A file of up to 585677102 bytes makes a patch below 2^32 bytes; one of up to 130150144 bytes makes
      one that also leaves room for the buffers of the two compressors, which are doubled when they are
      full, or grow by four times the input. */
  lemma PatchFits(z: seq<Byte> -> seq<Byte>, dz: Patcher.Codec, ctrl: seq<Byte>, db: seq<Byte>, eb: seq<Byte>, n: nat,
                  newsize: nat)
    requires IsCodec(z, dz) && |ctrl| == 24 * n && 9 * (n - 1) <= newsize <= 585677102 && |db| + |eb| == newsize
    ensures Low(db) == db && Low(eb) == eb
    ensures Packed(z, ctrl, db, eb) < Patcher.TWO_32 && 24 * n + newsize < Patcher.TWO_32
    ensures newsize <= 130150144 ==>
      && 2 * Packed(z, ctrl, db, eb) < Patcher.TWO_32
      && 4 * Packed(z, ctrl, db, eb) + 24 * n + newsize + 5000 < Patcher.TWO_32
  {
    assert |z(ctrl)| <= 2 * |ctrl| + 600 && |z(db)| <= 2 * |db| + 600 && |z(eb)| <= 2 * |eb| + 600;
  }

  /** r is what the differ makes of base and target: with P the suffix array of base, the turns vs of the
      outer loop emit ts, which describes the target and is packed with its bytes. */
  ghost predicate Made(base: seq<Byte>, target: seq<Byte>, z: seq<Byte> -> seq<Byte>, r: Attempt,
                       P: seq<int>, vs: seq<Visit>, ts: seq<Triple>, db: seq<Byte>, eb: seq<Byte>)
  {
    && |target| < TWO_63
    && IsSuffixArray(base, P) && Positions(P, base)
    && Trace(P, base, target, vs, ts)
    && Describes(base, target, ts, db, eb) && NewPos(ts) == |target|
    && DiffLen(ts) == |db| && ExtraLen(ts) == |eb| && |db| + |eb| == |target|
    && 9 * (|ts| - 1) <= |target|
    && (r.Written? <==> Packed(z, CtrlBytes(ts), db, eb) < Patcher.TWO_32)
    && (r.Written? ==> r.patch == Pack(|target|, z(CtrlBytes(ts)), z(Low(db)), z(Low(eb))))
  }

  /** A written patch is applied back exactly when the decompressed blocks fit 32 bits, and then nothing
      was cut off when they were compressed. */
  lemma WrittenApplies(base: seq<Byte>, target: seq<Byte>, z: seq<Byte> -> seq<Byte>, dz: Patcher.Codec,
                       patch: seq<Byte>, ts: seq<Triple>, db: seq<Byte>, eb: seq<Byte>)
    requires Describes(base, target, ts, db, eb) && NewPos(ts) == |target| < TWO_63 && |db| + |eb| == |target|
    requires Patcher.Inverts(z, dz) && Packed(z, CtrlBytes(ts), db, eb) < Patcher.TWO_32
    requires patch == Pack(|target|, z(CtrlBytes(ts)), z(Low(db)), z(Low(eb)))
    ensures Patcher.Apply(base, patch, dz) == Patcher.Patched(target) <==> 24 * |ts| + |target| < Patcher.TWO_32
  {
    if |target| < Patcher.TWO_32 {
      LowWhole(db);
      LowWhole(eb);
      SmallApplies(base, target, z, dz, patch, ts, db, eb, Low(db), Low(eb));
    } else {
      Patcher.PatchedSize(base, patch, dz);
    }
  }

  lemma LowWhole(s: seq<Byte>)
    requires |s| < Patcher.TWO_32
    ensures Low(s) == s
  {
  }

  lemma SmallApplies(base: seq<Byte>, target: seq<Byte>, z: seq<Byte> -> seq<Byte>, dz: Patcher.Codec,
                     patch: seq<Byte>, ts: seq<Triple>, db: seq<Byte>, eb: seq<Byte>, d: seq<Byte>, e: seq<Byte>)
    requires Describes(base, target, ts, db, eb) && NewPos(ts) == |target| < TWO_63 && |db| + |eb| == |target|
    requires Patcher.Inverts(z, dz) && d == db && e == eb
    requires 32 + |z(CtrlBytes(ts))| + |z(d)| + |z(e)| < Patcher.TWO_32
    requires patch == Pack(|target|, z(CtrlBytes(ts)), z(d), z(e))
    ensures Patcher.Apply(base, patch, dz) == Patcher.Patched(target) <==> 24 * |ts| + |target| < Patcher.TWO_32
  {
    Patcher.ReadHeader(patch, |target|, z(CtrlBytes(ts)), z(db), z(eb));
    Patcher.RoundTrip(base, target, ts, db, eb, z, dz, patch);
  }

  lemma MadeApplies(base: seq<Byte>, target: seq<Byte>, z: seq<Byte> -> seq<Byte>, dz: Patcher.Codec, r: Attempt,
                    P: seq<int>, vs: seq<Visit>, ts: seq<Triple>, d: seq<Byte>, e: seq<Byte>)
    requires Made(base, target, z, r, P, vs, ts, d, e) && IsCodec(z, dz)
    ensures |target| <= 585677102 ==> r.Written? && Patcher.Apply(base, r.patch, dz) == Patcher.Patched(target)
    ensures r.Written? ==>
              (Patcher.Apply(base, r.patch, dz) == Patcher.Patched(target) <==>
                 24 * |ts| + |target| < Patcher.TWO_32)
    ensures |target| <= 130150144 ==>
              && 2 * Packed(z, CtrlBytes(ts), d, e) < Patcher.TWO_32
              && 4 * Packed(z, CtrlBytes(ts), d, e) + 24 * |ts| + |target| + 5000 < Patcher.TWO_32
  {
    if |target| <= 585677102 {
      PatchFits(z, dz, CtrlBytes(ts), d, e, |ts|, |target|);
    }
    if r.Written? {
      WrittenApplies(base, target, z, dz, r.patch, ts, d, e);
    }
  }

  /** CreatePatchInternal. The patch is packed from the triples that the scan of the target against the
      sorted base emits. For targets of up to 585677102 bytes ApplyPatch turns it back into the target.
      For any target it does so exactly when the patch and the decompressed blocks fit the 32-bit
      counters on both sides. */
  method CreatePatch(base: seq<Byte>, target: seq<Byte>, z: seq<Byte> -> seq<Byte>, ghost dz: Patcher.Codec)
    returns (r: Attempt, ghost P: seq<int>, ghost vs: seq<Visit>, ghost ts: seq<Triple>,
             ghost d: seq<Byte>, ghost e: seq<Byte>)
    requires |base| < MAX_FILE && |target| < MAX_FILE && IsCodec(z, dz)
    ensures Made(base, target, z, r, P, vs, ts, d, e)
    ensures |target| <= 585677102 ==> r.Written? && Patcher.Apply(base, r.patch, dz) == Patcher.Patched(target)
    ensures r.Written? ==>
              (Patcher.Apply(base, r.patch, dz) == Patcher.Patched(target) <==>
                 24 * |ts| + |target| < Patcher.TWO_32)
    ensures |target| <= 130150144 ==>
              && 2 * Packed(z, CtrlBytes(ts), d, e) < Patcher.TWO_32
              && 4 * Packed(z, CtrlBytes(ts), d, e) + 24 * |ts| + |target| + 5000 < Patcher.TWO_32
  {
    var I, V := new int[|base| + 1], new int[|base| + 1];
    QSufSort.QSufSort(I, V, base);
    P := I[..];
    var db, eb := new Byte[|target| + 1], new Byte[|target| + 1];
    var ctrl, dblen, eblen;
    ctrl, dblen, eblen, vs, ts := Scan(I, base, target, db, eb);
    d, e := db[..][..dblen], eb[..][..eblen];
    r := PackBlocks(ctrl, db[..][..dblen], eb[..][..eblen], |target|, z);
    DescribesTrimmed(base, target, ts, db[..], eb[..], dblen, eblen);
    MadeApplies(base, target, z, dz, r, P, vs, ts, d, e);
  }
}
