/** Suffixes of a byte string, named by their starting position 0..|base|. */
module SuffixOrder {
  import Lex = Lexicographic

  type Byte = b: int | 0 <= b < 256

  /** The suffix at a comes before the suffix at b. */
  ghost predicate Before(base: seq<Byte>, a: int, b: int)
    requires 0 <= a <= |base| && 0 <= b <= |base|
  {
    Lex.Less(base[a..], base[b..])
  }

  /** The suffixes at a and b have at least h symbols in common, or are the same suffix. */
  ghost predicate SharePrefix(base: seq<Byte>, a: int, b: int, h: nat)
    requires 0 <= a <= |base| && 0 <= b <= |base|
  {
    a == b || (a + h <= |base| && b + h <= |base| && base[a..a + h] == base[b..b + h])
  }

  /** Prefix doubling, equal ranks: h shared symbols and then g more are h + g shared symbols. */
  lemma Joined(base: seq<Byte>, a: int, b: int, h: nat, g: nat)
    requires 0 <= a && a + h <= |base| && 0 <= b && b + h <= |base|
    requires SharePrefix(base, a, b, h) && SharePrefix(base, a + h, b + h, g)
    ensures SharePrefix(base, a, b, h + g)
  {
    if a != b {
      assert base[a..a + h + g] == base[a..a + h] + base[a + h..a + h + g];
      assert base[b..b + h + g] == base[b..b + h] + base[b + h..b + h + g];
    }
  }

  /** Prefix doubling, distinct ranks: after h shared symbols the rest decides, either way. */
  lemma DecidedAfter(base: seq<Byte>, a: int, b: int, h: nat)
    requires 0 <= a && a + h <= |base| && 0 <= b && b + h <= |base|
    requires SharePrefix(base, a, b, h)
    ensures Before(base, a, b) <==> Before(base, a + h, b + h)
  {
    if a == b {
      Lex.Irreflexive(base[a..]);
      Lex.Irreflexive(base[a + h..]);
    } else {
      SharedFront(base, a, b, h);
      SharedFront(base, b, a, h);
      Lex.Total(base[a + h..], base[b + h..]);
      if Before(base, a + h, b + h) {
      } else {
        Lex.Asymmetric(base[b..], base[a..]);
      }
    }
  }

  lemma SharedFront(base: seq<Byte>, a: int, b: int, h: nat)
    requires 0 <= a && a + h <= |base| && 0 <= b && b + h <= |base|
    requires base[a..a + h] == base[b..b + h]
    ensures Before(base, a + h, b + h) ==> Before(base, a, b)
  {
    assert base[a..] == base[a..a + h] + base[a + h..];
    assert base[b..] == base[b..b + h] + base[b + h..];
    if Before(base, a + h, b + h) {
      Lex.Prepend(base[a..a + h], base[a + h..], base[b + h..]);
    }
  }

  lemma BeforeIsStrict(base: seq<Byte>, a: int, b: int)
    requires 0 <= a <= |base| && 0 <= b <= |base|
    requires Before(base, a, b)
    ensures a != b && !Before(base, b, a)
  {
    Lex.Asymmetric(base[a..], base[b..]);
  }

  /** Two suffixes whose first bytes differ are ordered by them; the empty suffix is least. */
  lemma FirstByteDecides(base: seq<Byte>, a: int, b: int)
    requires 0 <= a <= |base| && 0 <= b < |base|
    requires a == |base| || base[a] < base[b]
    ensures Before(base, a, b)
  {
    assert Lex.DiffersAt(base[a..], base[b..], 0);
  }

  /** p lists every position 0..|p|-1 exactly once. */
  ghost predicate IsPermutation(p: seq<int>) {
    && |p| > 0
    && (forall k :: 0 <= k < |p| ==> 0 <= p[k] < |p|)
    && (forall j, k :: 0 <= j < k < |p| ==> p[j] != p[k])
  }

  /** p is the suffix array of base: all suffixes, strictly increasing. */
  ghost predicate IsSuffixArray(base: seq<Byte>, p: seq<int>) {
    && |p| == |base| + 1
    && IsPermutation(p)
    && (forall j, k :: 0 <= j < k < |p| ==> Before(base, p[j], p[k]))
  }

  /** There is only one suffix array. */
  lemma {:induction false} SuffixArrayUnique(base: seq<Byte>, p: seq<int>, q: seq<int>)
    requires IsSuffixArray(base, p) && IsSuffixArray(base, q)
    ensures p == q
  {
    SuffixArraysAgree(base, p, q, |p|);
  }

  lemma {:induction false} SuffixArraysAgree(base: seq<Byte>, p: seq<int>, q: seq<int>, n: nat)
    requires IsSuffixArray(base, p) && IsSuffixArray(base, q) && n <= |p|
    ensures p[..n] == q[..n]
  {
    if n > 0 {
      SuffixArraysAgree(base, p, q, n - 1);
      var i := Surjective(p, q[n - 1]);
      var j := Surjective(q, p[n - 1]);
      forall k | 0 <= k < n - 1
        ensures p[k] == q[k]
      {
        assert p[k] == p[..n - 1][k] == q[..n - 1][k];
      }
      if p[n - 1] != q[n - 1] {
        BeforeIsStrict(base, p[n - 1], q[n - 1]);
        assert false;
      }
    }
  }

  /** Pigeonhole: as many distinct values as there are positions leave none out. */
  lemma {:induction false} Surjective(p: seq<int>, v: int) returns (k: int)
    requires IsPermutation(p) && 0 <= v < |p|
    ensures 0 <= k < |p| && p[k] == v
  {
    ValuesCount(p, 0, |p|);
    UpToCount(|p|);
    SubsetFull(Values(p, 0, |p|), UpTo(|p|));
    assert v in Values(p, 0, |p|);
    k :| 0 <= k < |p| && p[k] == v;
  }

  ghost function Values(p: seq<int>, lo: int, hi: int): set<int>
    requires 0 <= lo <= hi <= |p|
  {
    set k | lo <= k < hi :: p[k]
  }

  lemma {:induction false} ValuesCount(p: seq<int>, lo: int, hi: int)
    requires 0 <= lo <= hi <= |p|
    requires forall j, k :: lo <= j < k < hi ==> p[j] != p[k]
    ensures |Values(p, lo, hi)| == hi - lo
    decreases hi - lo
  {
    if lo < hi {
      ValuesCount(p, lo, hi - 1);
      assert Values(p, lo, hi) == Values(p, lo, hi - 1) + {p[hi - 1]};
    }
  }

  ghost function UpTo(n: nat): (r: set<int>)
    ensures forall x :: x in r <==> 0 <= x < n
  {
    if n == 0 then {} else UpTo(n - 1) + {n - 1}
  }

  lemma {:induction false} UpToCount(n: nat)
    ensures |UpTo(n)| == n
  {
    if n > 0 {
      UpToCount(n - 1);
    }
  }

  lemma SubsetCount(a: set<int>, b: set<int>)
    requires a <= b
    ensures |a| <= |b|
  {
    assert b == a + (b - a);
  }

  lemma SubsetFull(a: set<int>, b: set<int>)
    requires a <= b && |a| == |b|
    ensures a == b
  {
    assert b == a + (b - a);
    assert |b| == |a| + |b - a|;
  }
}
