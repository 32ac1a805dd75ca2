/** How far a match is extended forward and backward, and where two extensions that overlap
    are cut. */
module Extensions {
  import opened SuffixOrder

  /** How many of the n bytes of base from p equal those of target from q. */
  ghost function Same(base: seq<Byte>, p: int, target: seq<Byte>, q: int, n: nat): nat
    requires 0 <= p && p + n <= |base| && 0 <= q && q + n <= |target|
  {
    if n == 0 then 0 else Same(base, p, target, q, n - 1) + (if base[p + n - 1] == target[q + n - 1] then 1 else 0)
  }

  /** The places at which two stretches are equal. */
  ghost function EqualAt(u: seq<Byte>, v: seq<Byte>): set<int>
    requires |u| == |v|
  {
    set k | 0 <= k < |u| && u[k] == v[k]
  }

  /** Same counts them. */
  lemma {:induction false} SameCounts(base: seq<Byte>, p: int, target: seq<Byte>, q: int, n: nat, u: seq<Byte>,
                                      v: seq<Byte>)
    requires 0 <= p && p + n <= |base| && 0 <= q && q + n <= |target|
    requires u == base[p..p + n] && v == target[q..q + n]
    ensures Same(base, p, target, q, n) == |set k | 0 <= k < n && u[k] == v[k]|
    decreases n
  {
    if n > 0 {
      var u0, v0 := u[..n - 1], v[..n - 1];
      SameCounts(base, p, target, q, n - 1, u0, v0);
      assert EqualAt(u0, v0) == set k | 0 <= k < n - 1 && u0[k] == v0[k];
      assert EqualAt(u, v) == EqualAt(u0, v0) + if u[n - 1] == v[n - 1] then {n - 1} else {};
    }
    assert EqualAt(u, v) == set k | 0 <= k < n && u[k] == v[k];
  }

  lemma {:induction false} SameSplits(base: seq<Byte>, p: int, target: seq<Byte>, q: int, m: nat, n: nat)
    requires 0 <= p && p + m + n <= |base| && 0 <= q && q + m + n <= |target|
    ensures Same(base, p, target, q, m + n) == Same(base, p, target, q, m) + Same(base, p + m, target, q + m, n)
    decreases n
  {
    if n > 0 {
      SameSplits(base, p, target, q, m, n - 1);
    }
  }

  lemma SameHead(base: seq<Byte>, p: int, target: seq<Byte>, q: int, n: nat)
    requires 0 < n && 0 <= p && p + n <= |base| && 0 <= q && q + n <= |target|
    ensures Same(base, p, target, q, n)
        == Same(base, p + 1, target, q + 1, n - 1) + (if base[p] == target[q] then 1 else 0)
  {
    SameSplits(base, p, target, q, 1, n - 1);
    assert Same(base, p, target, q, 1) == Same(base, p, target, q, 0) + (if base[p] == target[q] then 1 else 0);
  }

  /** What an extension by n bytes is worth: twice the equal bytes less the length. */
  ghost function Worth(base: seq<Byte>, p: int, target: seq<Byte>, q: int, n: nat): int
    requires 0 <= p && p + n <= |base| && 0 <= q && q + n <= |target|
  {
    2 * Same(base, p, target, q, n) - n
  }

  /** lenf is the shortest of the most valuable extensions by up to limit bytes. */
  ghost predicate BestUpTo(base: seq<Byte>, p: int, target: seq<Byte>, q: int, limit: int, lenf: int)
    requires 0 <= limit && 0 <= p && p + limit <= |base| && 0 <= q && q + limit <= |target|
  {
    && 0 <= lenf <= limit
    && (forall n :: 0 <= n <= limit ==> Worth(base, p, target, q, n) <= Worth(base, p, target, q, lenf))
    && (forall n :: 0 <= n < lenf ==> Worth(base, p, target, q, n) < Worth(base, p, target, q, lenf))
  }

  /** lenf is the shortest of the most valuable extensions of the match at lastpos, lastscan that stop at
      scan and at the end of base. */
  ghost predicate BestForward(base: seq<Byte>, lastpos: int, target: seq<Byte>, lastscan: int, scan: int, lenf: int)
    requires 0 <= lastpos && 0 <= lastscan && scan <= |target|
  {
    && 0 <= lenf && lastscan + lenf <= scan && lastpos + lenf <= |base|
    && (forall n: nat :: lastscan + n <= scan && lastpos + n <= |base| ==>
          2 * Same(base, lastpos, target, lastscan, n) - n <= 2 * Same(base, lastpos, target, lastscan, lenf) - lenf)
    && (forall n: nat :: n < lenf ==>
          2 * Same(base, lastpos, target, lastscan, n) - n < 2 * Same(base, lastpos, target, lastscan, lenf) - lenf)
  }

  method ForwardExtent(base: seq<Byte>, lastpos: nat, target: seq<Byte>, lastscan: nat, scan: nat)
    returns (lenf: nat)
    requires lastpos <= |base| && lastscan <= scan <= |target|
    ensures BestForward(base, lastpos, target, lastscan, scan, lenf)
  {
    var s, Sf, i := 0, 0, 0;
    lenf := 0;
    while lastscan + i < scan && lastpos + i < |base|
      invariant 0 <= lenf <= i && lastscan + i <= scan && lastpos + i <= |base|
      invariant s == Same(base, lastpos, target, lastscan, i)
      invariant Sf == Same(base, lastpos, target, lastscan, lenf)
      invariant BestUpTo(base, lastpos, target, lastscan, i, lenf)
    {
      if base[lastpos + i] == target[lastscan + i] {
        s := s + 1;
      }
      i := i + 1;
      if s * 2 - i > Sf * 2 - lenf {
        Sf := s;
        lenf := i;
      }
    }
    BestOfAll(base, lastpos, target, lastscan, scan, i, lenf);
  }

  /** The loop goes on as long as there is room. */
  lemma BestOfAll(base: seq<Byte>, lastpos: int, target: seq<Byte>, lastscan: int, scan: int, limit: nat, lenf: int)
    requires 0 <= lastpos && lastpos + limit <= |base| && 0 <= lastscan && lastscan + limit <= scan <= |target|
    requires lastscan + limit == scan || lastpos + limit == |base|
    requires BestUpTo(base, lastpos, target, lastscan, limit, lenf)
    ensures BestForward(base, lastpos, target, lastscan, scan, lenf)
  {
    forall n: nat | lastscan + n <= scan && lastpos + n <= |base|
      ensures 2 * Same(base, lastpos, target, lastscan, n) - n <= 2 * Same(base, lastpos, target, lastscan, lenf) - lenf
      ensures n < lenf ==>
        2 * Same(base, lastpos, target, lastscan, n) - n < 2 * Same(base, lastpos, target, lastscan, lenf) - lenf
    {
      assert Worth(base, lastpos, target, lastscan, n) <= Worth(base, lastpos, target, lastscan, lenf);
    }
  }

  /** How many of the n bytes of base in front of pos equal those of target in front of scan. */
  ghost function SameBack(base: seq<Byte>, pos: int, target: seq<Byte>, scan: int, n: nat): nat
    requires n <= pos <= |base| && n <= scan <= |target|
  {
    Same(base, pos - n, target, scan - n, n)
  }

  lemma SameBackCounts(base: seq<Byte>, pos: int, target: seq<Byte>, scan: int, n: nat, u: seq<Byte>, v: seq<Byte>)
    requires n <= pos <= |base| && n <= scan <= |target|
    requires u == base[pos - n..pos] && v == target[scan - n..scan]
    ensures SameBack(base, pos, target, scan, n) == |set k | 0 <= k < n && u[k] == v[k]|
  {
    SameCounts(base, pos - n, target, scan - n, n, u, v);
  }

  /** What a backward extension by n bytes from pos, scan is worth. */
  ghost function WorthBack(base: seq<Byte>, pos: int, target: seq<Byte>, scan: int, n: nat): int
    requires n <= pos <= |base| && n <= scan <= |target|
  {
    2 * SameBack(base, pos, target, scan, n) - n
  }

  /** lenb is the shortest of the most valuable backward extensions by up to limit bytes. */
  ghost predicate BestBackUpTo(base: seq<Byte>, pos: int, target: seq<Byte>, scan: int, limit: int, lenb: int)
    requires 0 <= limit <= pos <= |base| && limit <= scan <= |target|
  {
    && 0 <= lenb <= limit
    && (forall n :: 0 <= n <= limit ==>
        WorthBack(base, pos, target, scan, n) <= WorthBack(base, pos, target, scan, lenb))
    && (forall n :: 0 <= n < lenb ==> WorthBack(base, pos, target, scan, n) < WorthBack(base, pos, target, scan, lenb))
  }

  /** lenb is the shortest of the most valuable backward extensions of the match at pos, scan that stop at
      lastscan and at the start of base. */
  ghost predicate BestBackward(base: seq<Byte>, pos: int, target: seq<Byte>, lastscan: int, scan: int, lenb: int)
    requires pos <= |base| && 0 <= lastscan && scan <= |target|
  {
    && 0 <= lenb <= scan - lastscan && lenb <= pos
    && (forall n: nat :: n <= scan - lastscan && n <= pos ==>
          2 * SameBack(base, pos, target, scan, n) - n <= 2 * SameBack(base, pos, target, scan, lenb) - lenb)
    && (forall n: nat :: n < lenb ==>
          2 * SameBack(base, pos, target, scan, n) - n < 2 * SameBack(base, pos, target, scan, lenb) - lenb)
  }

  /** One more byte in front of pos and scan. */
  lemma SameBackMore(base: seq<Byte>, pos: int, target: seq<Byte>, scan: int, i: nat)
    requires 0 < i <= pos <= |base| && i <= scan <= |target|
    ensures SameBack(base, pos, target, scan, i)
         == SameBack(base, pos, target, scan, i - 1) + if base[pos - i] == target[scan - i] then 1 else 0
  {
    SameHead(base, pos - i, target, scan - i, i);
  }

  lemma BestBackMore(base: seq<Byte>, pos: int, target: seq<Byte>, scan: int, i: nat, was: nat, lenb: nat)
    requires 0 < i <= pos <= |base| && i <= scan <= |target| && was < i
    requires BestBackUpTo(base, pos, target, scan, i - 1, was)
    requires lenb == if WorthBack(base, pos, target, scan, i) > WorthBack(base, pos, target, scan, was) then i else was
    ensures BestBackUpTo(base, pos, target, scan, i, lenb)
  {
  }

  method BackwardExtent(base: seq<Byte>, pos: nat, target: seq<Byte>, lastscan: nat, scan: nat)
    returns (lenb: nat)
    requires pos <= |base| && lastscan <= scan <= |target|
    ensures BestBackward(base, pos, target, lastscan, scan, lenb)
  {
    lenb := 0;
    var s, Sb := 0, 0;
    var i := 1;
    while scan >= lastscan + i && pos >= i
      invariant 1 <= i && lenb < i && lastscan + i - 1 <= scan && i - 1 <= pos
      invariant s == SameBack(base, pos, target, scan, i - 1)
      invariant Sb == SameBack(base, pos, target, scan, lenb)
      invariant BestBackUpTo(base, pos, target, scan, i - 1, lenb)
    {
      SameBackMore(base, pos, target, scan, i);
      ghost var was := lenb;
      if base[pos - i] == target[scan - i] {
        s := s + 1;
      }
      if s * 2 - i > Sb * 2 - lenb {
        Sb := s;
        lenb := i;
      }
      BestBackMore(base, pos, target, scan, i, was, lenb);
      i := i + 1;
    }
    BestOfAllBack(base, pos, target, lastscan, scan, i - 1, lenb);
  }

  lemma BestOfAllBack(base: seq<Byte>, pos: int, target: seq<Byte>, lastscan: int, scan: int, limit: nat, lenb: int)
    requires limit <= pos <= |base| && 0 <= lastscan && lastscan + limit <= scan <= |target|
    requires lastscan + limit == scan || limit == pos
    requires BestBackUpTo(base, pos, target, scan, limit, lenb)
    ensures BestBackward(base, pos, target, lastscan, scan, lenb)
  {
    forall n: nat | n <= scan - lastscan && n <= pos
      ensures 2 * SameBack(base, pos, target, scan, n) - n <= 2 * SameBack(base, pos, target, scan, lenb) - lenb
      ensures n < lenb ==>
        2 * SameBack(base, pos, target, scan, n) - n < 2 * SameBack(base, pos, target, scan, lenb) - lenb
    {
      assert WorthBack(base, pos, target, scan, n) <= WorthBack(base, pos, target, scan, lenb);
    }
  }

  /** lens is the least of the cuts that keep the most equal bytes, when the first k bytes of an overlap
      stay with the forward extension (base from p) and the rest with the backward one (base from b). */
  ghost predicate BestCut(base: seq<Byte>, p: int, b: int, target: seq<Byte>, q: int, overlap: nat, lens: int)
    requires 0 <= p && p + overlap <= |base| && 0 <= b && b + overlap <= |base| && 0 <= q && q + overlap <= |target|
  {
    && 0 <= lens <= overlap
    && (forall k: nat :: k <= overlap ==>
          Same(base, p, target, q, k) + Same(base, b + k, target, q + k, overlap - k)
          <= Same(base, p, target, q, lens) + Same(base, b + lens, target, q + lens, overlap - lens))
    && (forall k: nat :: k < lens ==>
          Same(base, p, target, q, k) + Same(base, b + k, target, q + k, overlap - k)
          < Same(base, p, target, q, lens) + Same(base, b + lens, target, q + lens, overlap - lens))
  }

  lemma CutGain(base: seq<Byte>, p: int, b: int, target: seq<Byte>, q: int, overlap: nat, k: nat)
    requires k <= overlap
    requires 0 <= p && p + overlap <= |base| && 0 <= b && b + overlap <= |base| && 0 <= q && q + overlap <= |target|
    ensures Same(base, b + k, target, q + k, overlap - k)
         == Same(base, b, target, q, overlap) - Same(base, b, target, q, k)
  {
    SameSplits(base, b, target, q, k, overlap - k);
  }

  /** The overlap starts at q in target, at p in base for the forward and at b for the backward
      extension. */
  method CutOverlap(base: seq<Byte>, p: nat, b: nat, target: seq<Byte>, q: nat, overlap: nat)
    returns (lens: nat)
    requires p + overlap <= |base| && b + overlap <= |base| && q + overlap <= |target|
    ensures BestCut(base, p, b, target, q, overlap, lens)
  {
    var s, Ss := 0, 0;
    lens := 0;
    for i := 0 to overlap
      invariant 0 <= lens <= i
      invariant s == Same(base, p, target, q, i) - Same(base, b, target, q, i)
      invariant Ss == Same(base, p, target, q, lens) - Same(base, b, target, q, lens)
      invariant forall k :: 0 <= k <= i ==> Same(base, p, target, q, k) - Same(base, b, target, q, k) <= Ss
      invariant forall k :: 0 <= k < lens ==> Same(base, p, target, q, k) - Same(base, b, target, q, k) < Ss
    {
      if target[q + i] == base[p + i] {
        s := s + 1;
      }
      if target[q + i] == base[b + i] {
        s := s - 1;
      }
      if s > Ss {
        Ss := s;
        lens := i + 1;
      }
    }
    BestCutOf(base, p, b, target, q, overlap, lens);
  }

  /** To keep most is to gain most over keeping all with the backward extension. */
  lemma BestCutOf(base: seq<Byte>, p: nat, b: nat, target: seq<Byte>, q: nat, overlap: nat, lens: nat)
    requires p + overlap <= |base| && b + overlap <= |base| && q + overlap <= |target| && lens <= overlap
    requires forall k :: 0 <= k <= overlap ==>
               Same(base, p, target, q, k) - Same(base, b, target, q, k)
               <= Same(base, p, target, q, lens) - Same(base, b, target, q, lens)
    requires forall k :: 0 <= k < lens ==>
               Same(base, p, target, q, k) - Same(base, b, target, q, k)
               < Same(base, p, target, q, lens) - Same(base, b, target, q, lens)
    ensures BestCut(base, p, b, target, q, overlap, lens)
  {
    forall k: nat | k <= overlap
      ensures Same(base, p, target, q, k) + Same(base, b + k, target, q + k, overlap - k)
           == Same(base, b, target, q, overlap) + Same(base, p, target, q, k) - Same(base, b, target, q, k)
    {
      CutGain(base, p, b, target, q, overlap, k);
    }
  }
}
