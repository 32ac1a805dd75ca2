/** qsufsort: suffix sorting by prefix doubling, in place on two arrays.

    I lists suffix positions; V[p] is the rank of suffix p, which is the last index of the
    group of I that p belongs to. A group that has shrunk to one suffix is overwritten in I by
    a negative run length, so the arrangement that I stands for is carried as a ghost
    permutation P. */
module SuffixSort {
  import opened SuffixOrder

  // ---------------------------------------------------------------- the ranking invariant

  ghost function Rank(P: seq<int>, V: seq<int>, k: int): int
    requires IsPermutation(P) && |V| == |P| && 0 <= k < |P|
  {
    V[P[k]]
  }

  /** Groups are contiguous in P and named by their last index. */
  ghost predicate RanksFollow(P: seq<int>, V: seq<int>)
    requires |P| == |V| && IsPermutation(P)
  {
    && (forall k :: 0 <= k < |P| ==> k <= Rank(P, V, k) < |P|)
    && (forall k :: 0 <= k < |P| ==> Rank(P, V, Rank(P, V, k)) == Rank(P, V, k))
    && (forall j, k :: 0 <= j <= k < |P| ==> Rank(P, V, j) <= Rank(P, V, k))
  }

  /** A smaller rank means an earlier suffix. */
  ghost predicate OrderedByRank(base: seq<Byte>, V: seq<int>)
    requires |V| == |base| + 1
  {
    forall a, b :: 0 <= a < |V| && 0 <= b < |V| && V[a] < V[b] ==> Before(base, a, b)
  }

  /** An equal rank means h shared symbols. */
  ghost predicate AlikeByRank(base: seq<Byte>, V: seq<int>, h: nat)
    requires |V| == |base| + 1
  {
    forall a, b :: 0 <= a < |V| && 0 <= b < |V| && V[a] == V[b] ==> SharePrefix(base, a, b, h)
  }

  /** The prefix-doubling invariant at step h. */
  ghost predicate Ranking(base: seq<Byte>, P: seq<int>, V: seq<int>, h: nat) {
    && |V| == |P| == |base| + 1
    && IsPermutation(P)
    && RanksFollow(P, V)
    && OrderedByRank(base, V)
    && AlikeByRank(base, V, h)
  }

  /** Position m is a group of its own. */
  ghost predicate Alone(P: seq<int>, V: seq<int>, m: int)
    requires IsPermutation(P) && |V| == |P| && 0 <= m < |P|
  {
    Rank(P, V, m) == m && (m > 0 ==> Rank(P, V, m - 1) < m)
  }

  /** [lo, hi) is the front part of the group that ends at e, and goes before the rest of it. */
  ghost predicate GroupFront(base: seq<Byte>, P: seq<int>, V: seq<int>, lo: int, hi: int, e: int, h: nat)
    requires IsPermutation(P) && |V| == |P| == |base| + 1
  {
    && 0 <= lo <= hi <= e + 1 <= |P|
    && (forall m :: lo <= m <= e ==> Rank(P, V, m) == e)
    && (forall m :: 0 <= m < lo ==> Rank(P, V, m) < lo)
    && (forall m :: lo <= m < hi ==> P[m] + h <= |base|)
    && (forall a, b :: lo <= a < hi <= b <= e ==> Before(base, P[a], P[b]))
  }

  /** I spells P on [lo, hi). */
  ghost predicate Spelled(I: seq<int>, P: seq<int>, lo: int, hi: int) {
    0 <= lo <= hi <= |I| && |I| == |P| && forall m :: lo <= m < hi ==> I[m] == P[m]
  }

  /** What a pass leaves at m: a run of one for a sorted suffix, otherwise the suffix, which
      then has room for the reads of a step of g symbols. */
  ghost predicate Marked(base: seq<Byte>, P: seq<int>, V: seq<int>, I: seq<int>, m: int, g: nat)
    requires IsPermutation(P) && |V| == |P| == |I| == |base| + 1 && 0 <= m < |P|
  {
    (I[m] == -1 && Alone(P, V, m)) || (I[m] == P[m] && P[m] + g <= |base|)
  }

  /** [lo, hi) has been regrouped, within itself, by 2h symbols. */
  ghost predicate Refined(base: seq<Byte>, P: seq<int>, V: seq<int>, I: seq<int>, lo: int, hi: int, h: nat)
    requires IsPermutation(P) && |V| == |P| == |I| == |base| + 1 && 0 <= lo <= hi <= |P|
  {
    && (forall m :: lo <= m < hi ==> lo <= Rank(P, V, m) < hi)
    && (forall a, b :: lo <= a < b < hi && Rank(P, V, a) == Rank(P, V, b) ==> SharePrefix(base, P[a], P[b], 2 * h))
    && (forall m :: lo <= m < hi ==> Marked(base, P, V, I, m, 2 * h))
  }

  /** P and V agree with P0 and V0 outside [lo, hi). */
  ghost predicate SameOutside(P0: seq<int>, V0: seq<int>, P: seq<int>, V: seq<int>, lo: int, hi: int)
    requires IsPermutation(P0) && IsPermutation(P)
    requires |V0| == |P0| == |P| == |V| && 0 <= lo <= hi <= |P|
  {
    forall m :: 0 <= m < |P| && !(lo <= m < hi) ==> P[m] == P0[m] && Rank(P, V, m) == Rank(P0, V0, m)
  }

  ghost predicate Untouched(I0: seq<int>, I: seq<int>, lo: int, hi: int)
    requires |I0| == |I|
  {
    forall m :: 0 <= m < |I| && !(lo <= m < hi) ==> I[m] == I0[m]
  }

  // ---------------------------------------------------------------- giving a group its rank

  /** W is V with the elements of [lo, mid) ranked mid - 1. */
  ghost predicate Reranked(P: seq<int>, V: seq<int>, W: seq<int>, lo: int, mid: int)
    requires IsPermutation(P) && |V| == |P| == |W|
  {
    forall m :: 0 <= m < |P| ==> Rank(P, W, m) == if lo <= m < mid then mid - 1 else Rank(P, V, m)
  }

  lemma RankedAtPositions(base: seq<Byte>, P: seq<int>, V: seq<int>, W: seq<int>,
                          lo: int, mid: int, e: int, h: nat, a: int, b: int)
    requires Ranking(base, P, V, h) && GroupFront(base, P, V, lo, mid, e, h) && lo < mid
    requires |W| == |V| && Reranked(P, V, W, lo, mid)
    requires 0 <= a < |P| && 0 <= b < |P|
    ensures Rank(P, W, a) < Rank(P, W, b) ==> Before(base, P[a], P[b])
    ensures Rank(P, W, a) == Rank(P, W, b) ==> SharePrefix(base, P[a], P[b], h)
  {
    assert Rank(P, V, a) >= a && Rank(P, V, b) >= b;
  }

  lemma RankedGroup(base: seq<Byte>, P: seq<int>, V: seq<int>, W: seq<int>, lo: int, mid: int, e: int, h: nat)
    requires Ranking(base, P, V, h) && GroupFront(base, P, V, lo, mid, e, h) && lo < mid
    requires |W| == |V| && Reranked(P, V, W, lo, mid)
    ensures Ranking(base, P, W, h)
    ensures forall m :: mid <= m <= e ==> Rank(P, W, m) == e
    ensures forall m :: 0 <= m < mid ==> Rank(P, W, m) < mid
  {
    forall a, b | 0 <= a < |W| && 0 <= b < |W|
      ensures W[a] < W[b] ==> Before(base, a, b)
      ensures W[a] == W[b] ==> SharePrefix(base, a, b, h)
    {
      var j := Surjective(P, a);
      var k := Surjective(P, b);
      RankedAtPositions(base, P, V, W, lo, mid, e, h, j, k);
    }
    assert RanksFollow(P, W);
  }

  lemma RankedRefined(base: seq<Byte>, P: seq<int>, V: seq<int>, I: seq<int>, lo: int, mid: int, h: nat)
    requires IsPermutation(P) && |V| == |P| == |I| == |base| + 1 && 0 <= lo < mid <= |P|
    requires forall m :: lo <= m < mid ==> Rank(P, V, m) == mid - 1
    requires forall m :: 0 <= m < lo ==> Rank(P, V, m) < lo
    requires forall a, b :: lo <= a < b < mid ==> SharePrefix(base, P[a], P[b], 2 * h)
    requires if mid == lo + 1 then I[lo] == -1 else Spelled(I, P, lo, mid)
    ensures Refined(base, P, V, I, lo, mid, h)
  {
    if mid > lo + 1 {
      forall m | lo <= m < mid
        ensures P[m] + 2 * h <= |base|
      {
        assert SharePrefix(base, P[lo], P[if m == lo then lo + 1 else m], 2 * h);
      }
    }
  }

  /** The elements of [lo, mid) become a group of their own. */
  method RankGroup(I: array<int>, V: array<int>, lo: int, mid: int,
                   ghost base: seq<Byte>, ghost P: seq<int>, ghost e: int, ghost h: nat)
    requires I != V && I.Length == V.Length == |base| + 1
    requires Ranking(base, P, V[..], h) && GroupFront(base, P, V[..], lo, mid, e, h) && lo < mid
    requires Spelled(I[..], P, lo, mid)
    requires forall a, b :: lo <= a < b < mid ==> SharePrefix(base, P[a], P[b], 2 * h)
    modifies I, V
    ensures Ranking(base, P, V[..], h)
    ensures forall m :: mid <= m <= e ==> Rank(P, V[..], m) == e
    ensures forall m :: 0 <= m < mid ==> Rank(P, V[..], m) < mid
    ensures SameOutside(P, old(V[..]), P, V[..], lo, mid)
    ensures Untouched(old(I[..]), I[..], lo, mid)
    ensures Refined(base, P, V[..], I[..], lo, mid, h)
  {
    ghost var V0, I0 := V[..], I[..];
    for i := 0 to mid - lo
      invariant I[..] == I0
      invariant forall m :: 0 <= m < |P| ==> V[P[m]] == if lo <= m < lo + i then mid - 1 else V0[P[m]]
    {
      assert I[lo + i] == I0[lo + i] == P[lo + i];
      V[I[lo + i]] := mid - 1;
    }
    ghost var W := V[..];
    assert Reranked(P, V0, W, lo, mid);
    RankedGroup(base, P, V0, W, lo, mid, e, h);
    if mid == lo + 1 {
      I[lo] := -1;
    }
    assert V[..] == W;
    RankedRefined(base, P, W, I[..], lo, mid, h);
  }

  // ---------------------------------------------------------------- rearranging a group by key

  /** Only [lo, hi) may differ between P0 and P, and it holds the same suffixes. */
  ghost predicate Rearranged(P0: seq<int>, P: seq<int>, lo: int, hi: int) {
    && |P| == |P0| && 0 <= lo <= hi <= |P|
    && IsPermutation(P)
    && (forall m :: 0 <= m < |P| && !(lo <= m < hi) ==> P[m] == P0[m])
    && Values(P, lo, hi) == Values(P0, lo, hi)
  }

  function Swapped(P: seq<int>, i: int, j: int): seq<int>
    requires 0 <= i < |P| && 0 <= j < |P|
  {
    P[i := P[j]][j := P[i]]
  }

  lemma SwapRearranges(P0: seq<int>, P: seq<int>, lo: int, hi: int, i: int, j: int)
    requires Rearranged(P0, P, lo, hi) && lo <= i < hi && lo <= j < hi
    ensures Rearranged(P0, Swapped(P, i, j), lo, hi)
  {
    var Q := Swapped(P, i, j);
    forall v
      ensures v in Values(P, lo, hi) <==> v in Values(Q, lo, hi)
    {
      if v in Values(P, lo, hi) {
        var m :| lo <= m < hi && P[m] == v;
        assert Q[if m == i then j else if m == j then i else m] == v;
      }
      if v in Values(Q, lo, hi) {
        var m :| lo <= m < hi && Q[m] == v;
        assert P[if m == i then j else if m == j then i else m] == v;
      }
    }
  }

  /** Elements of one group may change places. */
  lemma RearrangedInGroup(base: seq<Byte>, P0: seq<int>, P: seq<int>, V: seq<int>, lo: int, hi: int, e: int, h: nat)
    requires Ranking(base, P0, V, h) && GroupFront(base, P0, V, lo, hi, e, h)
    requires Rearranged(P0, P, lo, hi)
    ensures Ranking(base, P, V, h) && GroupFront(base, P, V, lo, hi, e, h)
  {
    forall m | 0 <= m < |P|
      ensures Rank(P, V, m) == Rank(P0, V, m)
      ensures lo <= m < hi ==> P[m] + h <= |base|
      ensures lo <= m < hi ==> forall b :: hi <= b <= e ==> Before(base, P[m], P[b])
    {
      if lo <= m < hi {
        assert P[m] in Values(P0, lo, hi);
        var k :| lo <= k < hi && P0[k] == P[m];
        assert Rank(P0, V, k) == e == Rank(P0, V, m);
      }
    }
  }

  /** The sort key of suffix p at step h: the rank of what follows its first h symbols. */
  ghost function Key(V: seq<int>, h: nat, p: int): int
    requires 0 <= p && p + h < |V|
  {
    V[p + h]
  }

  /** All elements of [lo, hi) can be keyed, and their keys compare to x as given. */
  ghost predicate Keyed(V: seq<int>, h: nat, P: seq<int>, lo: int, hi: int) {
    0 <= lo <= hi <= |P| && forall m :: lo <= m < hi ==> 0 <= P[m] && P[m] + h < |V|
  }

  ghost predicate KeysBelow(V: seq<int>, h: nat, P: seq<int>, lo: int, hi: int, x: int) {
    Keyed(V, h, P, lo, hi) && forall m :: lo <= m < hi ==> Key(V, h, P[m]) < x
  }

  ghost predicate KeysEqual(V: seq<int>, h: nat, P: seq<int>, lo: int, hi: int, x: int) {
    Keyed(V, h, P, lo, hi) && forall m :: lo <= m < hi ==> Key(V, h, P[m]) == x
  }

  ghost predicate KeysAbove(V: seq<int>, h: nat, P: seq<int>, lo: int, hi: int, x: int) {
    Keyed(V, h, P, lo, hi) && forall m :: lo <= m < hi ==> Key(V, h, P[m]) > x
  }

  /** Swapping the same two places of I and P keeps I spelling P. */
  lemma SwapSpelled(I0: seq<int>, I: seq<int>, P: seq<int>, lo: int, hi: int, i: int, j: int)
    requires Spelled(I, P, lo, hi) && lo <= i < hi && lo <= j < hi
    requires |I0| == |I| && Untouched(I0, I, lo, hi)
    ensures Spelled(Swapped(I, i, j), Swapped(P, i, j), lo, hi)
    ensures Untouched(I0, Swapped(I, i, j), lo, hi)
  {
  }

  lemma SwapKeyed(V: seq<int>, h: nat, P: seq<int>, lo: int, hi: int, i: int, j: int)
    requires Keyed(V, h, P, lo, hi) && lo <= i < hi && lo <= j < hi
    ensures Keyed(V, h, Swapped(P, i, j), lo, hi)
  {
  }

  /** I spells Q, a rearrangement of P0 within [lo, hi), and is I0 elsewhere. */
  ghost predicate Mirrors(P0: seq<int>, I0: seq<int>, Q: seq<int>, I: seq<int>, V: seq<int>, h: nat, lo: int, hi: int) {
    && |I| == |I0|
    && Rearranged(P0, Q, lo, hi)
    && Spelled(I, Q, lo, hi)
    && Untouched(I0, I, lo, hi)
    && Keyed(V, h, Q, lo, hi)
  }

  method Exchange(I: array<int>, i: int, j: int, ghost lo: int, ghost hi: int, ghost P0: seq<int>, ghost I0: seq<int>,
                  ghost Q: seq<int>, ghost V: seq<int>, ghost h: nat)
    returns (ghost R: seq<int>)
    requires lo <= i < hi && lo <= j < hi
    requires Mirrors(P0, I0, Q, I[..], V, h, lo, hi)
    modifies I
    ensures |Q| == I.Length && R == Swapped(Q, i, j)
    ensures Mirrors(P0, I0, R, I[..], V, h, lo, hi)
  {
    SwapRearranges(P0, Q, lo, hi, i, j);
    SwapSpelled(I0, I[..], Q, lo, hi, i, j);
    SwapKeyed(V, h, Q, lo, hi, i, j);
    R := Swapped(Q, i, j);
    ghost var I1 := I[..];
    var tmp := I[i];
    I[i] := I[j];
    I[j] := tmp;
    assert I[..] == Swapped(I1, i, j);
  }

  method KeyAt(I: array<int>, V: array<int>, m: int, h: nat, ghost lo: int, ghost hi: int, ghost P0: seq<int>,
               ghost I0: seq<int>, ghost Q: seq<int>)
    returns (key: int)
    requires lo <= m < hi && I.Length == V.Length
    requires Mirrors(P0, I0, Q, I[..], V[..], h, lo, hi)
    ensures 0 <= m < |Q| && 0 <= Q[m] && Q[m] + h < V.Length
    ensures key == Key(V[..], h, Q[m])
  {
    assert I[..][m] == Q[m];
    key := V[I[m] + h];
  }

  /** Of [k, k + i), the elements with the least key x are those in [k, k + j). */
  ghost predicate Selected(V: seq<int>, h: nat, P: seq<int>, k: int, j: int, i: int, x: int) {
    KeysEqual(V, h, P, k, k + j, x) && KeysAbove(V, h, P, k + j, k + i, x)
  }

  lemma SelectRestart(V: seq<int>, h: nat, P: seq<int>, k: int, j: int, i: int, x: int, y: int)
    requires Selected(V, h, P, k, j, i, x) && y < x
    ensures Selected(V, h, P, k, 0, i, y)
  {
  }

  lemma SelectEqual(V: seq<int>, h: nat, P: seq<int>, k: int, j: int, i: int, hi: int, x: int)
    requires 0 <= j <= i && k + i < hi && Keyed(V, h, P, k, hi)
    requires Selected(V, h, P, k, j, i, x) && x == Key(V, h, P[k + i])
    ensures Selected(V, h, Swapped(P, k + j, k + i), k, j + 1, i + 1, x)
  {
  }

  lemma SelectAbove(V: seq<int>, h: nat, P: seq<int>, k: int, j: int, i: int, hi: int, x: int)
    requires 0 <= j <= i && k + i < hi && Keyed(V, h, P, k, hi)
    requires Selected(V, h, P, k, j, i, x) && x < Key(V, h, P[k + i])
    ensures Selected(V, h, P, k, j, i + 1, x)
  {
  }

  /** One turn of the selection loop: element k + i is compared with the least key so far. */
  method SelectStep(I: array<int>, V: array<int>, k: int, hi: int, h: nat, i: int, j0: int, least0: int,
                    ghost P: seq<int>, ghost I0: seq<int>, ghost Q0: seq<int>, ghost W: seq<int>)
    returns (j: int, least: int, ghost Q: seq<int>)
    requires I != V && I.Length == V.Length && 1 <= j0 <= i < hi - k && W == V[..]
    requires Mirrors(P, I0, Q0, I[..], W, h, k, hi)
    requires Selected(W, h, Q0, k, j0, i, least0)
    modifies I
    ensures 1 <= j <= i + 1
    ensures Mirrors(P, I0, Q, I[..], W, h, k, hi)
    ensures Selected(W, h, Q, k, j, i + 1, least)
  {
    var key := KeyAt(I, V, k + i, h, k, hi, P, I0, Q0);
    if least0 < key {
      SelectAbove(W, h, Q0, k, j0, i, hi, least0);
      return j0, least0, Q0;
    }
    least := least0;
    j := j0;
    if key < least {
      SelectRestart(W, h, Q0, k, j, i, least, key);
      least := key;
      j := 0;
    }
    SelectEqual(W, h, Q0, k, j, i, hi, least);
    Q := Exchange(I, k + j, k + i, k, hi, P, I0, Q0, W, h);
    j := j + 1;
  }

  /** One round of the selection used for short groups: the elements of [k, hi) with the least
      key move to the front. */
  method SelectLeast(I: array<int>, V: array<int>, k: int, hi: int, h: nat, ghost P: seq<int>)
    returns (j: int, ghost x: int, ghost Q: seq<int>)
    requires I != V && I.Length == V.Length == |P|
    requires IsPermutation(P) && 0 <= k < hi <= |P|
    requires Spelled(I[..], P, k, hi) && Keyed(V[..], h, P, k, hi)
    modifies I
    ensures 1 <= j <= hi - k
    ensures Mirrors(P, old(I[..]), Q, I[..], V[..], h, k, hi)
    ensures Selected(V[..], h, Q, k, j, hi - k, x)
  {
    ghost var I0, W := I[..], V[..];
    Q := P;
    j := 1;
    var least := KeyAt(I, V, k, h, k, hi, P, I0, Q);
    var i := 1;
    while i < hi - k
      invariant 1 <= j <= i <= hi - k
      invariant V[..] == W
      invariant Mirrors(P, I0, Q, I[..], W, h, k, hi)
      invariant Selected(W, h, Q, k, j, i, least)
    {
      j, least, Q := SelectStep(I, V, k, hi, h, i, j, least, P, I0, Q, V[..]);
      i := i + 1;
    }
    x := least;
  }

  // ---------------------------------------------------------------- three-way partition

  ghost function Lesser(V: seq<int>, h: nat, S: set<int>, x: int): set<int> {
    set p | p in S && 0 <= p && p + h < |V| && Key(V, h, p) < x
  }

  ghost function Equals(V: seq<int>, h: nat, S: set<int>, x: int): set<int> {
    set p | p in S && 0 <= p && p + h < |V| && Key(V, h, p) == x
  }

  ghost function Greater(V: seq<int>, h: nat, S: set<int>, x: int): set<int> {
    set p | p in S && 0 <= p && p + h < |V| && Key(V, h, p) > x
  }

  /** The counts that the first loop of the partition takes: where the three parts must lie. */
  ghost predicate Counted(V: seq<int>, h: nat, S: set<int>, lo: int, jj: int, kk: int, hi: int, x: int) {
    && |Lesser(V, h, S, x)| == jj - lo
    && |Equals(V, h, S, x)| == kk - jj
    && |Greater(V, h, S, x)| == hi - kk
  }

  /** What stays fixed while [lo, hi) is partitioned around key x into [lo, jj), [jj, kk), [kk, hi). */
  datatype Task = Task(P: seq<int>, I: seq<int>, V: seq<int>, h: nat, lo: int, jj: int, kk: int, hi: int, x: int) {
    ghost predicate Valid() {
      && 0 <= lo <= jj <= kk <= hi <= |P| && IsPermutation(P)
      && Counted(V, h, Values(P, lo, hi), lo, jj, kk, hi, x)
    }
  }

  /** The partition so far: i, j and k elements are known to be in their parts. */
  ghost predicate Parted(t: Task, Q: seq<int>, I: seq<int>, i: int, j: int, k: int) {
    && t.Valid()
    && Mirrors(t.P, t.I, Q, I, t.V, t.h, t.lo, t.hi)
    && t.lo <= i <= t.jj <= t.jj + j <= t.kk <= t.kk + k <= t.hi
    && KeysBelow(t.V, t.h, Q, t.lo, i, t.x)
    && KeysEqual(t.V, t.h, Q, t.jj, t.jj + j, t.x)
    && KeysAbove(t.V, t.h, Q, t.kk, t.kk + k, t.x)
  }

  /** Counting argument: a set that holds [a, b) and one element more is larger than b - a. */
  lemma OneMore(P: seq<int>, a: int, b: int, m: int, S: set<int>)
    requires IsPermutation(P) && 0 <= a <= b <= |P| && 0 <= m < |P| && !(a <= m < b)
    requires Values(P, a, b) <= S && P[m] in S
    ensures b - a < |S|
  {
    ValuesCount(P, a, b);
    SubsetCount(Values(P, a, b) + {P[m]}, S);
  }

  lemma RoomForEqual(t: Task, Q: seq<int>, I: seq<int>, i: int, j: int, k: int, m: int)
    requires Parted(t, Q, I, i, j, k) && t.lo <= m < t.hi && !(t.jj <= m < t.jj + j)
    requires Key(t.V, t.h, Q[m]) == t.x
    ensures t.jj + j < t.kk
  {
    OneMore(Q, t.jj, t.jj + j, m, Equals(t.V, t.h, Values(Q, t.lo, t.hi), t.x));
  }

  lemma RoomForAbove(t: Task, Q: seq<int>, I: seq<int>, i: int, j: int, k: int, m: int)
    requires Parted(t, Q, I, i, j, k) && t.lo <= m < t.hi && !(t.kk <= m < t.kk + k)
    requires Key(t.V, t.h, Q[m]) > t.x
    ensures t.kk + k < t.hi
  {
    OneMore(Q, t.kk, t.kk + k, m, Greater(t.V, t.h, Values(Q, t.lo, t.hi), t.x));
  }

  lemma LowPartFull(t: Task, Q: seq<int>, I: seq<int>, j: int, k: int, m: int)
    requires Parted(t, Q, I, t.jj, j, k) && t.jj <= m < t.hi
    ensures Key(t.V, t.h, Q[m]) >= t.x
  {
    if Key(t.V, t.h, Q[m]) < t.x {
      OneMore(Q, t.lo, t.jj, m, Lesser(t.V, t.h, Values(Q, t.lo, t.hi), t.x));
    }
  }

  lemma KeysAfterSwapEqual(t: Task, Q: seq<int>, R: seq<int>, I: seq<int>, i: int, j: int, k: int)
    requires Parted(t, Q, I, i, j, k) && i < t.jj && t.jj + j < t.kk
    requires R == Swapped(Q, i, t.jj + j) && Key(t.V, t.h, Q[i]) == t.x
    ensures KeysBelow(t.V, t.h, R, t.lo, i, t.x)
    ensures KeysEqual(t.V, t.h, R, t.jj, t.jj + (j + 1), t.x)
    ensures KeysAbove(t.V, t.h, R, t.kk, t.kk + k, t.x)
  {
  }

  lemma KeysAfterSwapAbove(t: Task, Q: seq<int>, R: seq<int>, I: seq<int>, i: int, j: int, k: int, m: int)
    requires Parted(t, Q, I, i, j, k) && (i <= m < t.jj || t.jj + j <= m < t.kk) && t.kk + k < t.hi
    requires R == Swapped(Q, m, t.kk + k) && Key(t.V, t.h, Q[m]) > t.x
    ensures KeysBelow(t.V, t.h, R, t.lo, i, t.x)
    ensures KeysEqual(t.V, t.h, R, t.jj, t.jj + j, t.x)
    ensures KeysAbove(t.V, t.h, R, t.kk, t.kk + (k + 1), t.x)
  {
  }

  /** An element of the first part that belongs to the middle is swapped there. */
  method PlaceEqual(I: array<int>, i: int, dst: int, ghost t: Task, ghost Q: seq<int>, ghost j: int, ghost k: int)
    returns (ghost R: seq<int>)
    requires Parted(t, Q, I[..], i, j, k) && i < t.jj && dst == t.jj + j
    requires Key(t.V, t.h, Q[i]) == t.x
    modifies I
    ensures Parted(t, R, I[..], i, j + 1, k)
  {
    RoomForEqual(t, Q, I[..], i, j, k, i);
    KeysAfterSwapEqual(t, Q, Swapped(Q, i, dst), I[..], i, j, k);
    R := Exchange(I, i, dst, t.lo, t.hi, t.P, t.I, Q, t.V, t.h);
  }

  /** An element of the first or the middle part that belongs to the last is swapped there. */
  method PlaceAbove(I: array<int>, m: int, dst: int, ghost t: Task, ghost Q: seq<int>, ghost i: int, ghost j: int,
                    ghost k: int)
    returns (ghost R: seq<int>)
    requires Parted(t, Q, I[..], i, j, k) && (i <= m < t.jj || t.jj + j <= m < t.kk) && dst == t.kk + k
    requires Key(t.V, t.h, Q[m]) > t.x
    modifies I
    ensures Parted(t, R, I[..], i, j, k + 1)
  {
    RoomForAbove(t, Q, I[..], i, j, k, m);
    KeysAfterSwapAbove(t, Q, Swapped(Q, m, dst), I[..], i, j, k, m);
    R := Exchange(I, m, dst, t.lo, t.hi, t.P, t.I, Q, t.V, t.h);
  }

  lemma PartBelow(t: Task, Q: seq<int>, I: seq<int>, i: int, j: int, k: int)
    requires Parted(t, Q, I, i, j, k) && i < t.jj && Key(t.V, t.h, Q[i]) < t.x
    ensures Parted(t, Q, I, i + 1, j, k)
  {
  }

  lemma PartEqual(t: Task, Q: seq<int>, I: seq<int>, j: int, k: int)
    requires Parted(t, Q, I, t.jj, j, k) && t.jj + j < t.kk && Key(t.V, t.h, Q[t.jj + j]) == t.x
    ensures Parted(t, Q, I, t.jj, j + 1, k)
  {
  }

  /** When the low and middle parts are complete, the rest is the high part. */
  lemma HighPartFull(t: Task, Q: seq<int>, I: seq<int>, j: int, k: int)
    requires Parted(t, Q, I, t.jj, j, k) && t.jj + j == t.kk
    ensures KeysAbove(t.V, t.h, Q, t.kk, t.hi, t.x)
  {
    forall m | t.kk <= m < t.hi
      ensures Key(t.V, t.h, Q[m]) > t.x
    {
      LowPartFull(t, Q, I, j, k, m);
      if Key(t.V, t.h, Q[m]) == t.x {
        RoomForEqual(t, Q, I, t.jj, j, k, m);
      }
    }
  }

  /** The counting loop: how many keys of [lo, hi) are below, and how many equal to, the pivot. */
  method CountKeys(I: array<int>, V: array<int>, lo: int, hi: int, h: nat, x: int, ghost P: seq<int>)
    returns (below: nat, equal: nat)
    requires I.Length == V.Length == |P| && IsPermutation(P)
    requires Spelled(I[..], P, lo, hi) && Keyed(V[..], h, P, lo, hi)
    ensures Counted(V[..], h, Values(P, lo, hi), lo, lo + below, lo + below + equal, hi, x)
  {
    below, equal := 0, 0;
    ghost var W := V[..];
    for i := lo to hi
      invariant Counted(W, h, Values(P, lo, i), lo, lo + below, lo + below + equal, i, x)
    {
      assert I[..][i] == P[i];
      CountOne(W, h, P, lo, i, hi, x);
      if V[I[i] + h] < x {
        below := below + 1;
      }
      if V[I[i] + h] == x {
        equal := equal + 1;
      }
    }
  }

  lemma CountOne(V: seq<int>, h: nat, P: seq<int>, lo: int, i: int, hi: int, x: int)
    requires IsPermutation(P) && Keyed(V, h, P, lo, hi) && lo <= i < hi
    ensures var S, T := Values(P, lo, i), Values(P, lo, i + 1);
      && |Lesser(V, h, T, x)| == |Lesser(V, h, S, x)| + (if Key(V, h, P[i]) < x then 1 else 0)
      && |Equals(V, h, T, x)| == |Equals(V, h, S, x)| + (if Key(V, h, P[i]) == x then 1 else 0)
      && |Greater(V, h, T, x)| == |Greater(V, h, S, x)| + (if Key(V, h, P[i]) > x then 1 else 0)
  {
    var S, T := Values(P, lo, i), Values(P, lo, i + 1);
    assert T == S + {P[i]} && P[i] !in S;
    Grow(S, T, P[i], Lesser(V, h, S, x), Lesser(V, h, T, x));
    Grow(S, T, P[i], Equals(V, h, S, x), Equals(V, h, T, x));
    Grow(S, T, P[i], Greater(V, h, S, x), Greater(V, h, T, x));
  }

  lemma Grow(S: set<int>, T: set<int>, p: int, A: set<int>, B: set<int>)
    requires T == S + {p} && p !in S && A <= S && B <= T
    requires forall q :: q in S ==> (q in A <==> q in B)
    ensures |B| == |A| + (if p in B then 1 else 0)
  {
    assert forall q :: q in B <==> q in A || (q == p && p in B);
    if p in B {
      assert B == A + {p};
    } else {
      assert B == A;
    }
  }

  method PartKey(I: array<int>, V: array<int>, h: nat, m: int, ghost t: Task, ghost Q: seq<int>, ghost i: int,
                 ghost j: int, ghost k: int)
    returns (key: int)
    requires I.Length == V.Length && V[..] == t.V && h == t.h && t.lo <= m < t.hi
    requires Parted(t, Q, I[..], i, j, k)
    ensures key == Key(t.V, t.h, Q[m])
  {
    key := KeyAt(I, V, m, h, t.lo, t.hi, t.P, t.I, Q);
  }

  /** One turn of the first swap loop. */
  method PlaceLowStep(I: array<int>, V: array<int>, h: nat, jj: int, kk: int, pivot: int, i0: int, j0: int, k0: int,
                      ghost t: Task, ghost Q0: seq<int>)
    returns (i: int, j: int, k: int, ghost Q: seq<int>)
    requires I != V && I.Length == V.Length
    requires V[..] == t.V && h == t.h && jj == t.jj && kk == t.kk && pivot == t.x
    requires Parted(t, Q0, I[..], i0, j0, k0) && i0 < jj
    modifies I
    ensures Parted(t, Q, I[..], i, j, k) && i + j + k == i0 + j0 + k0 + 1
  {
    var key := PartKey(I, V, h, i0, t, Q0, i0, j0, k0);
    if key < pivot {
      PartBelow(t, Q0, I[..], i0, j0, k0);
      return i0 + 1, j0, k0, Q0;
    } else if key == pivot {
      Q := PlaceEqual(I, i0, jj + j0, t, Q0, j0, k0);
      return i0, j0 + 1, k0, Q;
    } else {
      Q := PlaceAbove(I, i0, kk + k0, t, Q0, i0, j0, k0);
      return i0, j0, k0 + 1, Q;
    }
  }

  /** First swap loop: everything that belongs in [lo, jj) ends up there. */
  method PlaceLow(I: array<int>, V: array<int>, h: nat, lo: int, jj: int, kk: int, pivot: int, ghost t: Task)
    returns (j: int, k: int, ghost Q: seq<int>)
    requires I != V && I.Length == V.Length
    requires V[..] == t.V && h == t.h && lo == t.lo && jj == t.jj && kk == t.kk && pivot == t.x
    requires Parted(t, t.P, I[..], lo, 0, 0)
    modifies I
    ensures Parted(t, Q, I[..], jj, j, k)
  {
    Q := t.P;
    var i := lo;
    j, k := 0, 0;
    while i < jj
      invariant V[..] == t.V
      invariant Parted(t, Q, I[..], i, j, k)
      decreases jj + t.kk + t.hi - i - j - k
    {
      i, j, k, Q := PlaceLowStep(I, V, h, jj, kk, pivot, i, j, k, t, Q);
    }
  }

  /** One turn of the second swap loop. */
  method PlaceMiddleStep(I: array<int>, V: array<int>, h: nat, jj: int, kk: int, pivot: int, j0: int, k0: int,
                         ghost t: Task, ghost Q0: seq<int>)
    returns (j: int, k: int, ghost Q: seq<int>)
    requires I != V && I.Length == V.Length
    requires V[..] == t.V && h == t.h && jj == t.jj && kk == t.kk && pivot == t.x
    requires Parted(t, Q0, I[..], jj, j0, k0) && jj + j0 < kk
    modifies I
    ensures Parted(t, Q, I[..], jj, j, k) && j + k == j0 + k0 + 1
  {
    var key := PartKey(I, V, h, jj + j0, t, Q0, jj, j0, k0);
    LowPartFull(t, Q0, I[..], j0, k0, jj + j0);
    if key == pivot {
      PartEqual(t, Q0, I[..], j0, k0);
      return j0 + 1, k0, Q0;
    } else {
      Q := PlaceAbove(I, jj + j0, kk + k0, t, Q0, jj, j0, k0);
      return j0, k0 + 1, Q;
    }
  }

  /** Second swap loop: everything that belongs in [jj, kk) ends up there. */
  method PlaceMiddle(I: array<int>, V: array<int>, h: nat, jj: int, kk: int, pivot: int, j0: int, k0: int,
                     ghost t: Task, ghost Q0: seq<int>)
    returns (ghost j: int, ghost k: int, ghost Q: seq<int>)
    requires I != V && I.Length == V.Length
    requires V[..] == t.V && h == t.h && jj == t.jj && kk == t.kk && pivot == t.x
    requires Parted(t, Q0, I[..], jj, j0, k0)
    modifies I
    ensures Parted(t, Q, I[..], jj, j, k) && jj + j == kk
  {
    Q := Q0;
    var jn, kn := j0, k0;
    while jj + jn < kk
      invariant V[..] == t.V
      invariant Parted(t, Q, I[..], jj, jn, kn)
      decreases t.kk + t.hi - jn - kn
    {
      jn, kn, Q := PlaceMiddleStep(I, V, h, jj, kk, pivot, jn, kn, t, Q);
    }
    j, k := jn, kn;
  }

  /** Three-way partition of [lo, hi) around the key of its middle element. */
  method Partition(I: array<int>, V: array<int>, lo: int, hi: int, h: nat, ghost P: seq<int>)
    returns (jj: int, kk: int, ghost x: int, ghost Q: seq<int>)
    requires I != V && I.Length == V.Length == |P|
    requires IsPermutation(P) && 0 <= lo < hi <= |P|
    requires Spelled(I[..], P, lo, hi) && Keyed(V[..], h, P, lo, hi)
    modifies I
    ensures lo <= jj < kk <= hi
    ensures Mirrors(P, old(I[..]), Q, I[..], V[..], h, lo, hi)
    ensures x == Key(V[..], h, P[lo + (hi - lo) / 2])
    ensures KeysBelow(V[..], h, Q, lo, jj, x)
    ensures KeysEqual(V[..], h, Q, jj, kk, x)
    ensures KeysAbove(V[..], h, Q, kk, hi, x)
  {
    ghost var I0, W := I[..], V[..];
    var pivot := KeyAt(I, V, lo + (hi - lo) / 2, h, lo, hi, P, I0, P);
    x := pivot;
    var below, equal := CountKeys(I, V, lo, hi, h, pivot, P);
    assert P[lo + (hi - lo) / 2] in Equals(W, h, Values(P, lo, hi), x);
    jj := lo + below;
    kk := jj + equal;
    ghost var t := Task(P, I0, W, h, lo, jj, kk, hi, pivot);
    var j, k;
    j, k, Q := PlaceLow(I, V, h, lo, jj, kk, pivot, t);
    ghost var jn, kn;
    jn, kn, Q := PlaceMiddle(I, V, h, jj, kk, pivot, j, k, t, Q);
    HighPartFull(t, Q, I[..], jn, kn);
  }

  // ---------------------------------------------------------------- split

  /** A snapshot of the sort: the arrangement, the ranks, and the array I. */
  datatype Snapshot = Snapshot(P: seq<int>, V: seq<int>, I: seq<int>) {
    ghost predicate Shaped(base: seq<Byte>) {
      IsPermutation(P) && |V| == |P| == |I| == |base| + 1
    }
  }

  /** [lo, hi) is still to be split: it is spelled out in I and fronts the group that ends at e. */
  ghost predicate Ready(base: seq<Byte>, s: Snapshot, lo: int, hi: int, e: int, h: nat) {
    && s.Shaped(base)
    && Ranking(base, s.P, s.V, h)
    && GroupFront(base, s.P, s.V, lo, hi, e, h)
    && Spelled(s.I, s.P, lo, hi)
  }

  /** Between two snapshots only [lo, hi) changed, and [lo, mid) of it is now split. */
  ghost predicate Progress(base: seq<Byte>, s: Snapshot, t: Snapshot, lo: int, mid: int, hi: int, h: nat) {
    && s.Shaped(base) && t.Shaped(base) && 0 <= lo <= mid <= hi <= |t.P|
    && SameOutside(s.P, s.V, t.P, t.V, lo, hi)
    && Untouched(s.I, t.I, lo, hi)
    && Refined(base, t.P, t.V, t.I, lo, mid, h)
  }

  lemma ProgressThen(base: seq<Byte>, s: Snapshot, t: Snapshot, u: Snapshot, lo: int, mid: int, mid': int, hi: int,
                     h: nat)
    requires Progress(base, s, t, lo, mid, hi, h) && Progress(base, t, u, mid, mid', hi, h)
    ensures Progress(base, s, u, lo, mid', hi, h)
  {
    forall m | lo <= m < mid
      ensures Rank(u.P, u.V, m) == Rank(t.P, t.V, m) && u.P[m] == t.P[m]
      ensures Marked(base, u.P, u.V, u.I, m, 2 * h)
    {
      assert Marked(base, t.P, t.V, t.I, m, 2 * h);
      assert m > 0 ==> (Rank(u.P, u.V, m - 1) == Rank(t.P, t.V, m - 1));
    }
    assert Refined(base, u.P, u.V, u.I, lo, mid, h);
    RefinedJoin(base, u, lo, mid, mid', h);
  }

  lemma RefinedJoin(base: seq<Byte>, u: Snapshot, lo: int, mid: int, hi: int, h: nat)
    requires u.Shaped(base) && 0 <= lo <= mid <= hi <= |u.P|
    requires Refined(base, u.P, u.V, u.I, lo, mid, h) && Refined(base, u.P, u.V, u.I, mid, hi, h)
    ensures Refined(base, u.P, u.V, u.I, lo, hi, h)
  {
  }

  lemma RanksDecide(base: seq<Byte>, V: seq<int>, h: nat, p: int, q: int)
    requires |V| == |base| + 1 && OrderedByRank(base, V) && AlikeByRank(base, V, h)
    requires 0 <= p && p + h <= |base| && 0 <= q && q + h <= |base| && SharePrefix(base, p, q, h)
    ensures V[p + h] == V[q + h] ==> SharePrefix(base, p, q, 2 * h)
    ensures V[p + h] < V[q + h] ==> Before(base, p, q)
  {
    if V[p + h] == V[q + h] {
      Joined(base, p, q, h, h);
    } else if V[p + h] < V[q + h] {
      DecidedAfter(base, p, q, h);
    }
  }

  /** Suffixes of one group with equal keys share 2h symbols; a smaller key means an earlier suffix. */
  lemma KeysDecide(base: seq<Byte>, P: seq<int>, V: seq<int>, lo: int, hi: int, e: int, h: nat, a: int, b: int)
    requires Ranking(base, P, V, h) && GroupFront(base, P, V, lo, hi, e, h)
    requires lo <= a < hi && lo <= b < hi
    ensures Key(V, h, P[a]) == Key(V, h, P[b]) ==> SharePrefix(base, P[a], P[b], 2 * h)
    ensures Key(V, h, P[a]) < Key(V, h, P[b]) ==> Before(base, P[a], P[b])
  {
    SameGroupShares(base, P, V, lo, hi, e, h, a, b);
    RanksDecide(base, V, h, P[a], P[b]);
  }

  lemma SameGroupShares(base: seq<Byte>, P: seq<int>, V: seq<int>, lo: int, hi: int, e: int, h: nat, a: int, b: int)
    requires Ranking(base, P, V, h) && GroupFront(base, P, V, lo, hi, e, h)
    requires lo <= a < hi && lo <= b < hi
    ensures SharePrefix(base, P[a], P[b], h) && P[a] + h <= |base| && P[b] + h <= |base|
  {
    assert Rank(P, V, a) == Rank(P, V, b) == e;
  }

  /** Cutting a group between smaller and larger keys. */
  lemma CutGroup(base: seq<Byte>, P: seq<int>, V: seq<int>, lo: int, mid: int, hi: int, e: int, h: nat)
    requires Ranking(base, P, V, h) && GroupFront(base, P, V, lo, hi, e, h) && lo <= mid <= hi
    requires forall a, b :: lo <= a < mid <= b < hi ==> Key(V, h, P[a]) < Key(V, h, P[b])
    ensures GroupFront(base, P, V, lo, mid, e, h)
  {
    forall a, b | lo <= a < mid <= b <= e
      ensures Before(base, P[a], P[b])
    {
      if b < hi {
        KeysDecide(base, P, V, lo, hi, e, h, a, b);
      }
    }
  }

  lemma EqualKeysShare(base: seq<Byte>, P: seq<int>, V: seq<int>, lo: int, hi: int, e: int, h: nat, a: int, b: int,
                       x: int)
    requires Ranking(base, P, V, h) && GroupFront(base, P, V, lo, hi, e, h)
    requires lo <= a <= b <= hi && KeysEqual(V, h, P, a, b, x)
    ensures forall j, k :: a <= j < k < b ==> SharePrefix(base, P[j], P[k], 2 * h)
  {
    forall j, k | a <= j < k < b
      ensures SharePrefix(base, P[j], P[k], 2 * h)
    {
      KeysDecide(base, P, V, lo, hi, e, h, j, k);
    }
  }

  /** Rearranging an unsplit segment is progress by nothing. */
  lemma RearrangedProgress(base: seq<Byte>, s: Snapshot, t: Snapshot, lo: int, hi: int, e: int, h: nat)
    requires Ready(base, s, lo, hi, e, h)
    requires t.V == s.V && Mirrors(s.P, s.I, t.P, t.I, s.V, h, lo, hi)
    ensures Ready(base, t, lo, hi, e, h)
    ensures Progress(base, s, t, lo, lo, hi, h)
  {
    RearrangedInGroup(base, s.P, t.P, s.V, lo, hi, e, h);
  }

  lemma ReadyKeyed(base: seq<Byte>, s: Snapshot, lo: int, hi: int, e: int, h: nat)
    requires Ready(base, s, lo, hi, e, h)
    ensures Keyed(s.V, h, s.P, lo, hi)
  {
  }

  /** Ranks the front [lo, mid) of what is still to be split. */
  method RankFront(I: array<int>, V: array<int>, lo: int, mid: int, ghost hi: int, ghost base: seq<Byte>,
                   ghost e: int, ghost h: nat, ghost s: Snapshot)
    returns (ghost w: Snapshot)
    requires I != V && I.Length == V.Length == |base| + 1 && lo < mid <= hi && s == Snapshot(s.P, V[..], I[..])
    requires Ready(base, s, lo, hi, e, h)
    requires GroupFront(base, s.P, s.V, lo, mid, e, h)
    requires forall a, b :: lo <= a < b < mid ==> SharePrefix(base, s.P[a], s.P[b], 2 * h)
    modifies I, V
    ensures w == Snapshot(s.P, V[..], I[..])
    ensures Ready(base, w, mid, hi, e, h)
    ensures Progress(base, s, w, lo, mid, hi, h)
  {
    RankGroup(I, V, lo, mid, base, s.P, e, h);
    w := Snapshot(s.P, V[..], I[..]);
  }

  /** One round of the short case: the least keys of [k, hi) become a group. */
  method SplitRound(I: array<int>, V: array<int>, k: int, hi: int, h: nat,
                    ghost base: seq<Byte>, ghost e: int, ghost s: Snapshot)
    returns (j: int, ghost w: Snapshot)
    requires I != V && I.Length == V.Length == |base| + 1 && k < hi && s == Snapshot(s.P, V[..], I[..])
    requires Ready(base, s, k, hi, e, h)
    modifies I, V
    ensures 1 <= j <= hi - k && w == Snapshot(w.P, V[..], I[..])
    ensures Ready(base, w, k + j, hi, e, h)
    ensures Progress(base, s, w, k, k + j, hi, h)
  {
    ReadyKeyed(base, s, k, hi, e, h);
    ghost var x, Q;
    j, x, Q := SelectLeast(I, V, k, hi, h, s.P);
    ghost var t := Snapshot(Q, V[..], I[..]);
    RearrangedProgress(base, s, t, k, hi, e, h);
    CutGroup(base, Q, t.V, k, k + j, hi, e, h);
    EqualKeysShare(base, Q, t.V, k, hi, e, h, k, k + j, x);
    w := RankFront(I, V, k, k + j, hi, base, e, h, t);
    ProgressThen(base, s, t, w, k, k, k + j, hi, h);
  }

  /** The short case of split. */
  method SplitShort(I: array<int>, V: array<int>, start: int, len: int, h: nat,
                    ghost base: seq<Byte>, ghost P: seq<int>, ghost e: int)
    returns (ghost Q: seq<int>)
    requires I != V && I.Length == V.Length == |base| + 1 && len > 0
    requires Ready(base, Snapshot(P, V[..], I[..]), start, start + len, e, h)
    modifies I, V
    ensures Ready(base, Snapshot(Q, V[..], I[..]), start + len, start + len, e, h)
    ensures Progress(base, old(Snapshot(P, V[..], I[..])), Snapshot(Q, V[..], I[..]), start, start + len,
                     start + len, h)
  {
    ghost var s := Snapshot(P, V[..], I[..]);
    ghost var t := s;
    var k, hi := start, start + len;
    while k < hi
      invariant start <= k <= hi && t == Snapshot(t.P, V[..], I[..])
      invariant Ready(base, t, k, hi, e, h)
      invariant Progress(base, s, t, start, k, hi, h)
    {
      var j;
      ghost var u;
      j, u := SplitRound(I, V, k, hi, h, base, e, t);
      ProgressThen(base, s, t, u, start, k, k + j, hi, h);
      k, t := k + j, u;
    }
    Q := t.P;
  }

  /** [lo, hi) has been partitioned: [lo, jj) and [lo, kk) go before the rest of the group and
      the middle part shares 2h symbols. */
  ghost predicate Cut(base: seq<Byte>, t: Snapshot, lo: int, jj: int, kk: int, hi: int, e: int, h: nat) {
    && Ready(base, t, lo, hi, e, h)
    && lo <= jj < kk <= hi
    && GroupFront(base, t.P, t.V, lo, jj, e, h)
    && GroupFront(base, t.P, t.V, lo, kk, e, h)
    && (forall a, b :: jj <= a < b < kk ==> SharePrefix(base, t.P[a], t.P[b], 2 * h))
  }

  method CutByKey(I: array<int>, V: array<int>, lo: int, hi: int, h: nat,
                  ghost base: seq<Byte>, ghost P: seq<int>, ghost e: int)
    returns (jj: int, kk: int, ghost Q: seq<int>)
    requires I != V && I.Length == V.Length == |base| + 1 && lo < hi
    requires Ready(base, Snapshot(P, V[..], I[..]), lo, hi, e, h)
    modifies I
    ensures Cut(base, Snapshot(Q, V[..], I[..]), lo, jj, kk, hi, e, h)
    ensures Progress(base, old(Snapshot(P, V[..], I[..])), Snapshot(Q, V[..], I[..]), lo, lo, hi, h)
  {
    ghost var s := Snapshot(P, V[..], I[..]);
    ReadyKeyed(base, s, lo, hi, e, h);
    ghost var x;
    jj, kk, x, Q := Partition(I, V, lo, hi, h, P);
    ghost var t := Snapshot(Q, V[..], I[..]);
    RearrangedProgress(base, s, t, lo, hi, e, h);
    CutGroup(base, Q, t.V, lo, jj, hi, e, h);
    CutGroup(base, Q, t.V, lo, kk, hi, e, h);
    EqualKeysShare(base, Q, t.V, lo, hi, e, h, jj, kk, x);
  }

  /** After the low part has been split on its own, the middle part can be ranked. */
  lemma LeftDone(base: seq<Byte>, t: Snapshot, u: Snapshot, lo: int, jj: int, kk: int, hi: int, e: int, h: nat)
    requires Cut(base, t, lo, jj, kk, hi, e, h)
    requires Progress(base, t, u, lo, jj, jj, h) && Ranking(base, u.P, u.V, h)
    ensures Ready(base, u, jj, hi, e, h) && Progress(base, t, u, lo, jj, hi, h)
    ensures GroupFront(base, u.P, u.V, jj, kk, e, h)
    ensures forall a, b :: jj <= a < b < kk ==> SharePrefix(base, u.P[a], u.P[b], 2 * h)
  {
  }

  lemma NoProgress(base: seq<Byte>, s: Snapshot, lo: int, h: nat)
    requires s.Shaped(base) && 0 <= lo <= |s.P|
    ensures Progress(base, s, s, lo, lo, lo, h)
  {
  }

  /** The recursive calls of split, on a part that may be empty. */
  method SplitPart(I: array<int>, V: array<int>, start: int, len: int, h: nat,
                   ghost base: seq<Byte>, ghost P: seq<int>, ghost e: int)
    returns (ghost Q: seq<int>)
    requires I != V && I.Length == V.Length == |base| + 1 && len >= 0
    requires Ready(base, Snapshot(P, V[..], I[..]), start, start + len, e, h)
    modifies I, V
    ensures Ready(base, Snapshot(Q, V[..], I[..]), start + len, start + len, e, h)
    ensures Progress(base, old(Snapshot(P, V[..], I[..])), Snapshot(Q, V[..], I[..]), start, start + len,
                     start + len, h)
    decreases len, 1
  {
    if len > 0 {
      Q := Split(I, V, start, len, h, base, P, e);
    } else {
      Q := P;
      NoProgress(base, Snapshot(P, V[..], I[..]), start, h);
    }
  }

  /** split: refines the group front [start, start + len) from h to 2h symbols. */
  method Split(I: array<int>, V: array<int>, start: int, len: int, h: nat,
               ghost base: seq<Byte>, ghost P: seq<int>, ghost e: int)
    returns (ghost Q: seq<int>)
    requires I != V && I.Length == V.Length == |base| + 1 && len > 0
    requires Ready(base, Snapshot(P, V[..], I[..]), start, start + len, e, h)
    modifies I, V
    ensures Ready(base, Snapshot(Q, V[..], I[..]), start + len, start + len, e, h)
    ensures Progress(base, old(Snapshot(P, V[..], I[..])), Snapshot(Q, V[..], I[..]), start, start + len,
                     start + len, h)
    decreases len, 0
  {
    if len < 16 {
      Q := SplitShort(I, V, start, len, h, base, P, e);
      return;
    }
    var jj, kk;
    jj, kk, Q := CutByKey(I, V, start, start + len, h, base, P, e);
    Q := SplitCut(I, V, start, len, jj, kk, h, base, Q, e, Snapshot(Q, V[..], I[..]));
  }

  /** The smaller keys are split. */
  method SplitLeft(I: array<int>, V: array<int>, start: int, len: int, jj: int, kk: int, h: nat,
                   ghost base: seq<Byte>, ghost P: seq<int>, ghost e: int, ghost t: Snapshot)
    returns (ghost u: Snapshot)
    requires I != V && I.Length == V.Length == |base| + 1 && t == Snapshot(P, V[..], I[..])
    requires Cut(base, t, start, jj, kk, start + len, e, h)
    modifies I, V
    ensures u == Snapshot(u.P, V[..], I[..])
    ensures Ready(base, u, jj, start + len, e, h) && Progress(base, t, u, start, jj, start + len, h)
    ensures GroupFront(base, u.P, u.V, jj, kk, e, h)
    ensures forall a, b :: jj <= a < b < kk ==> SharePrefix(base, u.P[a], u.P[b], 2 * h)
    decreases len - 1, 2
  {
    ghost var Q := SplitPart(I, V, start, jj - start, h, base, P, e);
    u := Snapshot(Q, V[..], I[..]);
    LeftDone(base, t, u, start, jj, kk, start + len, e, h);
  }

  /** And the equal ones ranked. */
  method SplitFront(I: array<int>, V: array<int>, start: int, len: int, jj: int, kk: int, h: nat,
                    ghost base: seq<Byte>, ghost P: seq<int>, ghost e: int, ghost t: Snapshot)
    returns (ghost w: Snapshot)
    requires I != V && I.Length == V.Length == |base| + 1 && t == Snapshot(P, V[..], I[..])
    requires Cut(base, t, start, jj, kk, start + len, e, h)
    modifies I, V
    ensures w == Snapshot(w.P, V[..], I[..])
    ensures Ready(base, w, kk, start + len, e, h)
    ensures Progress(base, t, w, start, kk, start + len, h)
    decreases len - 1, 3
  {
    ghost var u := SplitLeft(I, V, start, len, jj, kk, h, base, P, e, t);
    w := RankFront(I, V, jj, kk, start + len, base, e, h, u);
    ProgressThen(base, t, u, w, start, jj, kk, start + len, h);
  }

  /** The long case of split once the group is partitioned. */
  method SplitCut(I: array<int>, V: array<int>, start: int, len: int, jj: int, kk: int, h: nat,
                  ghost base: seq<Byte>, ghost P: seq<int>, ghost e: int, ghost t: Snapshot)
    returns (ghost Q: seq<int>)
    requires I != V && I.Length == V.Length == |base| + 1 && t == Snapshot(P, V[..], I[..])
    requires Cut(base, t, start, jj, kk, start + len, e, h)
    modifies I, V
    ensures Ready(base, Snapshot(Q, V[..], I[..]), start + len, start + len, e, h)
    ensures Progress(base, t, Snapshot(Q, V[..], I[..]), start, start + len, start + len, h)
    decreases len - 1, 4
  {
    ghost var w := SplitFront(I, V, start, len, jj, kk, h, base, P, e, t);
    Q := SplitPart(I, V, kk, start + len - kk, h, base, w.P, e);
    ProgressThen(base, t, w, Snapshot(Q, V[..], I[..]), start, kk, start + len, start + len, h);
  }
}
