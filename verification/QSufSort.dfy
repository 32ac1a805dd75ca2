/** The passes of qsufsort, its bucket start, and the resulting suffix array. */
module QSufSort {
  import opened SuffixOrder
  import opened SuffixSort

  // ---------------------------------------------------------------- run lengths

  /** I[k] is a negative run length over suffixes that already have their final place. */
  ghost predicate Run(s: Snapshot, k: int)
    requires IsPermutation(s.P) && |s.V| == |s.P| == |s.I| && 0 <= k < |s.P|
  {
    && s.I[k] < 0 && k - s.I[k] <= |s.P|
    && (forall m :: k <= m < k - s.I[k] ==> s.I[m] < 0 && Alone(s.P, s.V, m))
  }

  /** What a pass reads at k: a run, or a suffix with room for g more symbols. */
  ghost predicate Tile(base: seq<Byte>, s: Snapshot, k: int, g: nat)
    requires s.Shaped(base) && 0 <= k < |s.P|
  {
    Run(s, k) || (s.I[k] == s.P[k] && s.P[k] + g <= |base|)
  }

  ghost predicate Tiled(base: seq<Byte>, s: Snapshot, h: nat) {
    && s.Shaped(base)
    && Ranking(base, s.P, s.V, h)
    && (forall k :: 0 <= k < |s.P| ==> Tile(base, s, k, h))
  }

  ghost predicate AllRuns(I: seq<int>) {
    forall k :: 0 <= k < |I| ==> I[k] < 0
  }

  /** In the middle of a pass: [0, i) is regrouped by 2h symbols, the last len of it in place. */
  ghost predicate Passing(base: seq<Byte>, s: Snapshot, i: int, len: int, h: nat) {
    && s.Shaped(base) && 0 <= len <= i <= |s.P|
    && Ranking(base, s.P, s.V, h)
    && (forall m :: 0 <= m < i ==> Rank(s.P, s.V, m) < i)
    && (forall a, b :: 0 <= a < b < i && Rank(s.P, s.V, a) == Rank(s.P, s.V, b) ==>
          SharePrefix(base, s.P[a], s.P[b], 2 * h))
    && (forall k :: 0 <= k < i ==> Tile(base, s, k, 2 * h))
    && (forall k :: i <= k < |s.P| ==> Tile(base, s, k, h))
    && (forall m :: i - len <= m < i ==> s.I[m] < 0 && Alone(s.P, s.V, m))
  }

  /** Skipping a run. */
  lemma SkipRun(base: seq<Byte>, s: Snapshot, i: int, len: int, h: nat)
    requires Passing(base, s, i, len, h) && i < |s.P| && s.I[i] < 0
    ensures Passing(base, s, i - s.I[i], len - s.I[i], h)
  {
    assert Tile(base, s, i, h);
    assert Run(s, i);
    var i' := i - s.I[i];
    forall m | i <= m < i'
      ensures Rank(s.P, s.V, m) == m && Tile(base, s, m, 2 * h)
    {
      assert Alone(s.P, s.V, m);
      assert Tile(base, s, m, h);
    }
  }

  lemma CloseRunAt(base: seq<Byte>, s: Snapshot, t: Snapshot, i: int, len: int, k: int, g: nat)
    requires s.Shaped(base) && 0 < len <= i <= |s.P| && t == s.(I := s.I[i - len := -len])
    requires forall m :: i - len <= m < i ==> s.I[m] < 0 && Alone(s.P, s.V, m)
    requires 0 <= k < |s.P| && Tile(base, s, k, g)
    ensures Tile(base, t, k, g)
  {
    if k == i - len {
      assert Run(t, k);
    } else if Run(s, k) {
      assert Run(t, k);
    }
  }

  /** Recording the pending run in front of i. */
  lemma CloseRun(base: seq<Byte>, s: Snapshot, t: Snapshot, i: int, len: int, h: nat)
    requires Passing(base, s, i, len, h) && len > 0
    requires t == s.(I := s.I[i - len := -len])
    ensures Passing(base, t, i, 0, h)
  {
    forall k | 0 <= k < i
      ensures Tile(base, t, k, 2 * h)
    {
      CloseRunAt(base, s, t, i, len, k, 2 * h);
    }
    forall k | i <= k < |t.P|
      ensures Tile(base, t, k, h)
    {
      CloseRunAt(base, s, t, i, len, k, h);
    }
  }

  /** The unsorted group that starts at i is ready for split. */
  lemma GroupReady(base: seq<Byte>, s: Snapshot, i: int, len: int, h: nat)
    requires Passing(base, s, i, len, h) && i < |s.P| && s.I[i] >= 0
    ensures s.I[i] == s.P[i] && i <= s.V[s.I[i]] < |s.P|
    ensures Ready(base, s, i, s.V[s.I[i]] + 1, s.V[s.I[i]], h)
    ensures forall m :: i <= m <= s.V[s.I[i]] ==> s.I[m] >= 0
  {
    assert Tile(base, s, i, h);
    var e := Rank(s.P, s.V, i);
    assert Rank(s.P, s.V, e) == e;
    forall m | i <= m <= e
      ensures Rank(s.P, s.V, m) == e && s.I[m] == s.P[m] && s.P[m] + h <= |base|
    {
      assert Tile(base, s, m, h);
      assert Rank(s.P, s.V, i) <= Rank(s.P, s.V, m) <= Rank(s.P, s.V, e);
      if m > i {
        assert Rank(s.P, s.V, i) <= Rank(s.P, s.V, m - 1) <= Rank(s.P, s.V, e);
        assert !Alone(s.P, s.V, m);
      }
      if m == i && e > i {
        assert !Alone(s.P, s.V, m);
      }
    }
  }

  /** After split, the pass has advanced past the group. */
  lemma GroupPassed(base: seq<Byte>, s: Snapshot, t: Snapshot, i: int, hi: int, h: nat)
    requires Passing(base, s, i, 0, h) && i < hi <= |s.P|
    requires forall m :: i <= m < hi ==> s.I[m] >= 0
    requires Progress(base, s, t, i, hi, hi, h) && Ranking(base, t.P, t.V, h)
    ensures Passing(base, t, hi, 0, h)
  {
    forall k | 0 <= k < hi
      ensures Tile(base, t, k, 2 * h)
    {
      if k < i {
        TileKept(base, s, t, i, hi, h, k, 2 * h);
      } else {
        assert Marked(base, t.P, t.V, t.I, k, 2 * h);
        assert t.I[k] == -1 && Alone(t.P, t.V, k) ==> Run(t, k);
      }
    }
    forall k | hi <= k < |t.P|
      ensures Tile(base, t, k, h)
    {
      TileKept(base, s, t, i, hi, h, k, h);
    }
    PrefixAlike(base, s, t, i, hi, h);
  }

  lemma PrefixAlike(base: seq<Byte>, s: Snapshot, t: Snapshot, i: int, hi: int, h: nat)
    requires Passing(base, s, i, 0, h) && i < hi <= |s.P|
    requires Progress(base, s, t, i, hi, hi, h)
    ensures forall m :: 0 <= m < hi ==> Rank(t.P, t.V, m) < hi
    ensures forall a, b :: 0 <= a < b < hi && Rank(t.P, t.V, a) == Rank(t.P, t.V, b) ==>
              SharePrefix(base, t.P[a], t.P[b], 2 * h)
  {
    forall a, b | 0 <= a < b < hi && Rank(t.P, t.V, a) == Rank(t.P, t.V, b)
      ensures SharePrefix(base, t.P[a], t.P[b], 2 * h)
    {
      if a < i {
        assert Rank(s.P, s.V, a) < i && t.P[a] == s.P[a];
        assert b < i && t.P[b] == s.P[b];
      }
    }
  }

  lemma TileKept(base: seq<Byte>, s: Snapshot, t: Snapshot, i: int, hi: int, h: nat, k: int, g: nat)
    requires s.Shaped(base) && 0 <= i < hi <= |s.P|
    requires forall m :: i <= m < hi ==> s.I[m] >= 0
    requires Progress(base, s, t, i, hi, hi, h)
    requires 0 <= k < |s.P| && !(i <= k < hi) && Tile(base, s, k, g)
    ensures Tile(base, t, k, g)
  {
    if Run(s, k) {
      RunKept(base, s, t, i, hi, h, k);
    }
  }

  lemma RunKept(base: seq<Byte>, s: Snapshot, t: Snapshot, i: int, hi: int, h: nat, k: int)
    requires s.Shaped(base) && 0 <= i < hi <= |s.P|
    requires forall m :: i <= m < hi ==> s.I[m] >= 0
    requires Progress(base, s, t, i, hi, hi, h)
    requires 0 <= k < |s.P| && !(i <= k < hi) && Run(s, k)
    ensures Run(t, k)
  {
    forall m | k <= m < k - s.I[k]
      ensures t.I[m] < 0 && Alone(t.P, t.V, m)
    {
      assert s.I[m] < 0 && Alone(s.P, s.V, m);
      assert !(i <= m < hi);
      assert Rank(t.P, t.V, m) == Rank(s.P, s.V, m) == m;
      if m > 0 {
        assert i <= m - 1 < hi ==> Rank(t.P, t.V, m - 1) < hi <= m;
      }
    }
  }

  /** At the end of a pass all suffixes are grouped by 2h symbols. */
  lemma PassDone(base: seq<Byte>, s: Snapshot, len: int, h: nat)
    requires Passing(base, s, |s.P|, len, h)
    ensures Tiled(base, s, 2 * h)
  {
    forall a, b | 0 <= a < |s.V| && 0 <= b < |s.V| && s.V[a] == s.V[b]
      ensures SharePrefix(base, a, b, 2 * h)
    {
      var j := Surjective(s.P, a);
      var k := Surjective(s.P, b);
      assert Rank(s.P, s.V, j) == Rank(s.P, s.V, k);
      if j < k {
        assert SharePrefix(base, s.P[j], s.P[k], 2 * h);
      } else if k < j {
        assert SharePrefix(base, s.P[k], s.P[j], 2 * h);
      }
    }
  }

  /** "if(len) I[i-len]=-len": the pending run, if any, is recorded. */
  method CloseRunBefore(I: array<int>, V: array<int>, i: int, len: int, h: nat, ghost base: seq<Byte>,
                        ghost Q: seq<int>)
    requires I != V && I.Length == V.Length == |base| + 1
    requires Passing(base, Snapshot(Q, V[..], I[..]), i, len, h)
    modifies I
    ensures Passing(base, Snapshot(Q, V[..], I[..]), i, 0, h)
    ensures forall m :: i <= m < I.Length ==> I[m] == old(I[m])
    ensures len > 0 ==> I[i - len] == -len
  {
    if len != 0 {
      ghost var s := Snapshot(Q, V[..], I[..]);
      I[i - len] := -len;
      CloseRun(base, s, Snapshot(Q, V[..], I[..]), i, len, h);
    }
  }

  /** One turn of a pass on a group that is not in place yet. */
  method PassGroup(I: array<int>, V: array<int>, i: int, len0: int, h: nat, ghost base: seq<Byte>, ghost P: seq<int>)
    returns (len: int, ghost Q: seq<int>)
    requires I != V && I.Length == V.Length == |base| + 1
    requires Passing(base, Snapshot(P, V[..], I[..]), i, len0, h) && i < I.Length && I[i] >= 0
    modifies I, V
    ensures len > 0
    ensures Passing(base, Snapshot(Q, V[..], I[..]), i + len, 0, h)
  {
    CloseRunBefore(I, V, i, len0, h, base, P);
    ghost var t := Snapshot(P, V[..], I[..]);
    GroupReady(base, t, i, 0, h);
    len := V[I[i]] + 1 - i;
    Q := Split(I, V, i, len, h, base, P, i + len - 1);
    GroupPassed(base, t, Snapshot(Q, V[..], I[..]), i, i + len, h);
  }

  /** One pass over I: runs are merged, every other group is split. */
  method Pass(I: array<int>, V: array<int>, oldsize: nat, h: nat, ghost base: seq<Byte>, ghost P: seq<int>)
    returns (ghost Q: seq<int>)
    requires I != V && I.Length == V.Length == |base| + 1 && oldsize == |base|
    requires Tiled(base, Snapshot(P, V[..], I[..]), h)
    modifies I, V
    ensures Tiled(base, Snapshot(Q, V[..], I[..]), 2 * h)
    ensures old(AllRuns(I[..])) ==> I[0] == -(oldsize + 1)
  {
    ghost var I0 := I[..];
    Q := P;
    var len := 0;
    var i := 0;
    while i < oldsize + 1
      invariant Passing(base, Snapshot(Q, V[..], I[..]), i, len, h)
      invariant AllRuns(I0) ==> len == i && I[..] == I0
      decreases oldsize + 1 - i
    {
      assert Tile(base, Snapshot(Q, V[..], I[..]), i, h);
      if I[i] < 0 {
        SkipRun(base, Snapshot(Q, V[..], I[..]), i, len, h);
        len := len - I[i];
        i := i - I[i];
      } else {
        assert !AllRuns(I0);
        len, Q := PassGroup(I, V, i, len, h, base, Q);
        i := i + len;
        len := 0;
      }
    }
    CloseRunBefore(I, V, i, len, h, base, Q);
    PassDone(base, Snapshot(Q, V[..], I[..]), 0, h);
  }

  // ---------------------------------------------------------------- the bucket start

  /** How often byte c occurs among the first i bytes. */
  ghost function Occurs(base: seq<Byte>, i: nat, c: int): nat
    requires i <= |base|
  {
    if i == 0 then 0 else Occurs(base, i - 1, c) + (if base[i - 1] == c then 1 else 0)
  }

  /** How many bytes are smaller than c. */
  ghost function Below(base: seq<Byte>, c: nat): nat {
    if c == 0 then 0 else Below(base, c - 1) + Occurs(base, |base|, c - 1)
  }

  /** The place of suffix p in the order by first byte, ties in order of position. */
  ghost function Slot(base: seq<Byte>, p: int): nat
    requires 0 <= p <= |base|
  {
    if p == |base| then 0 else Below(base, base[p]) + Occurs(base, p, base[p]) + 1
  }

  /** The last place of the suffixes that start with the same byte as p. */
  ghost function Last(base: seq<Byte>, p: int): nat
    requires 0 <= p <= |base|
  {
    if p == |base| then 0 else Below(base, base[p] as int + 1)
  }

  /** The first symbol of suffix p, with the end of the string below every byte. */
  ghost function First(base: seq<Byte>, p: int): int
    requires 0 <= p <= |base|
  {
    if p == |base| then -1 else base[p]
  }

  lemma {:induction false} OccursGrows(base: seq<Byte>, i: nat, j: nat, c: int)
    requires i <= j <= |base|
    ensures Occurs(base, i, c) <= Occurs(base, j, c)
    decreases j - i
  {
    if i < j {
      OccursGrows(base, i, j - 1, c);
    }
  }

  lemma {:induction false} BelowGrows(base: seq<Byte>, c: nat, d: nat)
    requires c <= d
    ensures Below(base, c) <= Below(base, d)
    decreases d - c
  {
    if c < d {
      BelowGrows(base, c, d - 1);
    }
  }

  /** All bytes are below 256. */
  lemma {:induction false} BelowAll(base: seq<Byte>)
    ensures Below(base, 256) == |base|
  {
    BelowPrefix(base, |base|, 256);
    OccursAll(base, |base|);
  }

  ghost function OccursBelow(base: seq<Byte>, i: nat, c: nat): nat
    requires i <= |base|
  {
    if i == 0 then 0 else OccursBelow(base, i - 1, c) + (if base[i - 1] < c then 1 else 0)
  }

  lemma {:induction false} OccursAll(base: seq<Byte>, i: nat)
    requires i <= |base|
    ensures OccursBelow(base, i, 256) == i
  {
    if i > 0 {
      OccursAll(base, i - 1);
    }
  }

  lemma {:induction false} BelowPrefix(base: seq<Byte>, n: nat, c: nat)
    requires n == |base|
    ensures Below(base, c) == OccursBelow(base, n, c)
  {
    if c == 0 {
      OccursBelowZero(base, n);
    } else {
      BelowPrefix(base, n, c - 1);
      OccursBelowStep(base, n, c);
    }
  }

  lemma {:induction false} OccursBelowZero(base: seq<Byte>, i: nat)
    requires i <= |base|
    ensures OccursBelow(base, i, 0) == 0
  {
    if i > 0 {
      OccursBelowZero(base, i - 1);
    }
  }

  lemma {:induction false} OccursBelowStep(base: seq<Byte>, i: nat, c: nat)
    requires i <= |base| && c > 0
    ensures OccursBelow(base, i, c) == OccursBelow(base, i, c - 1) + Occurs(base, i, c - 1)
  {
    if i > 0 {
      OccursBelowStep(base, i - 1, c);
    }
  }

  /** Slots respect first bytes, and stay within the places of their byte. */
  lemma SlotOrder(base: seq<Byte>, p: int, q: int)
    requires 0 <= p <= |base| && 0 <= q <= |base|
    ensures Slot(base, p) <= Last(base, p) <= |base|
    ensures First(base, p) < First(base, q) ==> Last(base, p) < Slot(base, q)
    ensures First(base, p) == First(base, q) ==> Last(base, p) == Last(base, q)
  {
    BelowAll(base);
    if p < |base| {
      OccursGrows(base, p + 1, |base|, base[p]);
      BelowGrows(base, base[p] as int + 1, 256);
      if q < |base| && base[p] < base[q] {
        BelowGrows(base, base[p] as int + 1, base[q]);
      }
    }
  }

  lemma SlotsDiffer(base: seq<Byte>, p: int, q: int)
    requires 0 <= p < q <= |base|
    ensures Slot(base, p) != Slot(base, q)
  {
    SlotOrder(base, p, q);
    SlotOrder(base, q, p);
    if First(base, p) == First(base, q) {
      OccursGrows(base, p + 1, q, base[p]);
    }
  }

  /** P lists the suffixes in the order of their slots. */
  ghost predicate Slotted(base: seq<Byte>, P: seq<int>) {
    && |P| == |base| + 1
    && (forall k :: 0 <= k < |P| ==> 0 <= P[k] < |P|)
    && (forall k :: 0 <= k < |P| ==> Slot(base, P[k]) == k)
  }

  lemma FilledSlots(base: seq<Byte>, P: seq<int>)
    requires |P| == |base| + 1
    requires forall p :: 0 <= p <= |base| ==> 0 <= Slots(base)[p] <= |base| && P[Slots(base)[p]] == p
    ensures Slotted(base, P) && IsPermutation(P)
  {
    SlotsPermute(base);
    forall k | 0 <= k < |P|
      ensures 0 <= P[k] < |P| && Slot(base, P[k]) == k
    {
      var p := Surjective(Slots(base), k);
    }
  }

  /** The bucket start ranks every suffix by its first byte. */
  lemma StartRanking(base: seq<Byte>, P: seq<int>, V: seq<int>)
    requires Slotted(base, P) && IsPermutation(P) && |V| == |P|
    requires forall p :: 0 <= p <= |base| ==> V[p] == Last(base, p)
    ensures Ranking(base, P, V, 1)
  {
    forall k | 0 <= k < |P|
      ensures k <= Rank(P, V, k) < |P| && Rank(P, V, Rank(P, V, k)) == Rank(P, V, k)
    {
      SlotOrder(base, P[k], P[k]);
      var q := P[Last(base, P[k])];
      SlotOrder(base, P[k], q);
      SlotOrder(base, q, P[k]);
    }
    forall j, k | 0 <= j <= k < |P|
      ensures Rank(P, V, j) <= Rank(P, V, k)
    {
      SlotOrder(base, P[j], P[k]);
      SlotOrder(base, P[k], P[j]);
    }
    forall a, b | 0 <= a < |V| && 0 <= b < |V|
      ensures V[a] < V[b] ==> Before(base, a, b)
      ensures V[a] == V[b] ==> SharePrefix(base, a, b, 1)
    {
      SlotOrder(base, a, b);
      SlotOrder(base, b, a);
      if First(base, a) < First(base, b) {
        FirstByteDecides(base, a, b);
      }
    }
  }

  /** A byte value that occurs once has a group of its own. */
  lemma SingleAlone(base: seq<Byte>, P: seq<int>, V: seq<int>, c: nat)
    requires Slotted(base, P) && IsPermutation(P) && |V| == |P|
    requires forall p :: 0 <= p <= |base| ==> V[p] == Last(base, p)
    requires c < 256 && Below(base, c + 1) == Below(base, c) + 1 <= |base|
    ensures Alone(P, V, Below(base, c + 1))
  {
    var k := Below(base, c + 1);
    var p, q := P[k], P[k - 1];
    SlotOrder(base, p, q);
    SlotOrder(base, q, p);
    assert p != |base|;
    if base[p] < c {
      BelowGrows(base, base[p] as int + 1, c);
    } else if base[p] > c {
      BelowGrows(base, c + 1, base[p]);
    }
    if q != |base| && First(base, q) >= c {
      BelowGrows(base, c, base[q]);
    } else if q != |base| {
      BelowGrows(base, base[q] as int + 1, c);
    }
  }

  // ---------------------------------------------------------------- qsufsort

  method CountBytes(buckets: array<int>, base: seq<Byte>)
    requires buckets.Length == 256
    modifies buckets
    ensures forall c :: 0 <= c < 256 ==> buckets[c] == Occurs(base, |base|, c)
  {
    for i := 0 to 256
      invariant forall c :: 0 <= c < i ==> buckets[c] == 0
    {
      buckets[i] := 0;
    }
    for i := 0 to |base|
      invariant forall c :: 0 <= c < 256 ==> buckets[c] == Occurs(base, i, c)
    {
      buckets[base[i]] := buckets[base[i]] + 1;
    }
  }

  /** The first prefix loop: counts become bucket ends. */
  method CountsToEnds(buckets: array<int>, ghost base: seq<Byte>)
    requires buckets.Length == 256
    requires forall c :: 0 <= c < 256 ==> buckets[c] == Occurs(base, |base|, c)
    modifies buckets
    ensures forall c :: 0 <= c < 256 ==> buckets[c] == Below(base, c + 1)
  {
    for i := 1 to 256
      invariant forall c :: 0 <= c < i ==> buckets[c] == Below(base, c + 1)
      invariant forall c :: i <= c < 256 ==> buckets[c] == Occurs(base, |base|, c)
    {
      buckets[i] := buckets[i] + buckets[i - 1];
    }
  }

  /** The second prefix loop: bucket ends become bucket starts. */
  method EndsToStarts(buckets: array<int>, ghost base: seq<Byte>)
    requires buckets.Length == 256
    requires forall c :: 0 <= c < 256 ==> buckets[c] == Below(base, c + 1)
    modifies buckets
    ensures Filled(buckets[..], base, 0)
  {
    var i := 255;
    while i > 0
      invariant 0 <= i <= 255
      invariant forall c :: 0 <= c <= i ==> buckets[c] == Below(base, c + 1)
      invariant forall c :: i < c < 256 ==> buckets[c] == Below(base, c)
    {
      buckets[i] := buckets[i - 1];
      i := i - 1;
    }
    buckets[0] := 0;
  }

  ghost function Slots(base: seq<Byte>): (S: seq<int>)
    ensures |S| == |base| + 1
    ensures forall p :: 0 <= p <= |base| ==> S[p] == Slot(base, p)
  {
    seq(|base| + 1, p requires 0 <= p <= |base| => Slot(base, p))
  }

  lemma SlotsPermute(base: seq<Byte>)
    ensures IsPermutation(Slots(base)) && Slots(base)[|base|] == 0
  {
    var S := Slots(base);
    forall j, k | 0 <= j < k < |S|
      ensures S[j] != S[k]
    {
      SlotsDiffer(base, j, k);
    }
    forall k | 0 <= k < |S|
      ensures 0 <= S[k] < |S|
    {
      SlotOrder(base, k, k);
    }
  }

  lemma BucketStep(base: seq<Byte>, i: nat, c: int)
    requires i < |base|
    ensures Occurs(base, i + 1, c) == Occurs(base, i, c) + (if base[i] == c then 1 else 0)
    ensures Slot(base, i) == Below(base, base[i]) + Occurs(base, i, base[i]) + 1
  {
  }

  /** buckets[c] suffixes have been placed or precede the bucket of byte c. */
  ghost predicate Filled(buckets: seq<int>, base: seq<Byte>, i: nat)
    requires i <= |base|
  {
    |buckets| == 256 && forall c :: 0 <= c < 256 ==> buckets[c] == Below(base, c) + Occurs(base, i, c)
  }

  lemma FilledStep(b0: seq<int>, b1: seq<int>, base: seq<Byte>, i: nat)
    requires i < |base| && Filled(b0, base, i) && b1 == b0[base[i] := b0[base[i]] + 1]
    ensures Filled(b1, base, i + 1) && b1[base[i]] == Slots(base)[i]
  {
    forall c | 0 <= c < 256
      ensures b1[c] == Below(base, c) + Occurs(base, i + 1, c)
    {
      BucketStep(base, i, c);
    }
    BucketStep(base, i, base[i]);
  }

  /** Places every suffix in its slot; afterwards buckets[c] is the last slot of byte c. */
  method PlaceByFirstByte(I: array<int>, buckets: array<int>, base: seq<Byte>)
    requires I != buckets && I.Length == |base| + 1
    requires Filled(buckets[..], base, 0)
    modifies I, buckets
    ensures forall p :: 0 <= p <= |base| ==> 0 <= Slots(base)[p] <= |base| && I[Slots(base)[p]] == p
    ensures Filled(buckets[..], base, |base|)
  {
    ghost var S := Slots(base);
    SlotsPermute(base);
    for i := 0 to |base|
      invariant Filled(buckets[..], base, i)
      invariant forall p :: 0 <= p < i ==> I[S[p]] == p
    {
      ghost var b0 := buckets[..];
      var c := base[i];
      buckets[c] := buckets[c] + 1;
      FilledStep(b0, buckets[..], base, i);
      I[buckets[c]] := i;
    }
    I[0] := |base|;
  }

  method RankByFirstByte(V: array<int>, buckets: array<int>, base: seq<Byte>)
    requires V != buckets && V.Length == |base| + 1 && buckets.Length == 256
    requires forall c :: 0 <= c < 256 ==> buckets[c] == Below(base, c + 1)
    modifies V
    ensures forall p :: 0 <= p <= |base| ==> V[p] == Last(base, p)
  {
    for i := 0 to |base|
      invariant forall p :: 0 <= p < i ==> V[p] == Last(base, p)
    {
      V[i] := buckets[base[i]];
    }
    V[|base|] := 0;
  }

  /** Marks the groups of one: byte values 1..255 that occur once, and the empty suffix. */
  method MarkSingles(I: array<int>, V: array<int>, buckets: array<int>, ghost base: seq<Byte>, ghost P: seq<int>)
    requires I != V && I != buckets && V != buckets
    requires I.Length == V.Length == |base| + 1 && buckets.Length == 256
    requires Slotted(base, P) && IsPermutation(P) && I[..] == P
    requires forall p :: 0 <= p <= |base| ==> V[p] == Last(base, p)
    requires forall c :: 0 <= c < 256 ==> buckets[c] == Below(base, c + 1)
    modifies I
    ensures Tiled(base, Snapshot(P, V[..], I[..]), 1)
  {
    ghost var W := V[..];
    BelowAll(base);
    for c := 1 to 256
      invariant forall k :: 0 <= k < |P| ==> I[k] == P[k] || (I[k] == -1 && Alone(P, W, k))
    {
      BelowGrows(base, c + 1, 256);
      if buckets[c] == buckets[c - 1] + 1 {
        SingleAlone(base, P, W, c);
        I[buckets[c]] := -1;
      }
    }
    I[0] := -1;
    assert P[0] == |base|;
    StartRanking(base, P, W);
    ghost var s := Snapshot(P, W, I[..]);
    forall k | 0 <= k < |P|
      ensures Tile(base, s, k, 1)
    {
      if s.I[k] == -1 {
        assert Run(s, k);
      }
    }
  }

  /** When every tile is a run or the first run covers everything, the arrangement is final. */
  lemma OneRun(base: seq<Byte>, s: Snapshot, h: nat)
    requires Tiled(base, s, h) && s.I[0] == -(|base| + 1)
    ensures forall k :: 0 <= k < |s.P| ==> s.V[s.P[k]] == k
    ensures IsSuffixArray(base, s.P)
  {
    assert Tile(base, s, 0, h);
    forall k | 0 <= k < |s.P|
      ensures s.V[s.P[k]] == k
    {
      assert Alone(s.P, s.V, k);
    }
  }

  lemma LongStepsLeaveRuns(base: seq<Byte>, s: Snapshot, h: nat)
    requires Tiled(base, s, h) && h > |base|
    ensures AllRuns(s.I)
  {
    forall k | 0 <= k < |s.I|
      ensures s.I[k] < 0
    {
      assert Tile(base, s, k, h);
    }
  }

  /** The last loop: the suffix of every rank is written to its place. */
  method InvertRanks(I: array<int>, V: array<int>, oldsize: nat, ghost P: seq<int>)
    requires I != V && I.Length == V.Length == |P| == oldsize + 1
    requires IsPermutation(P) && forall k :: 0 <= k < |P| ==> V[P[k]] == k
    modifies I
    ensures I[..] == P
  {
    ghost var W := V[..];
    forall p | 0 <= p < |P|
      ensures 0 <= W[p] < |P| && P[W[p]] == p
    {
      var k := Surjective(P, p);
      assert V[P[k]] == k;
    }
    for i := 0 to oldsize + 1
      invariant V[..] == W
      invariant forall p :: 0 <= p < i ==> I[W[p]] == p
    {
      assert V[i] == W[i];
      I[V[i]] := i;
    }
    forall k | 0 <= k < |P|
      ensures I[k] == P[k]
    {
      assert W[P[k]] == k;
    }
  }

  /** The bucket start as a whole: every suffix ranked by its first byte. */
  method BucketStart(I: array<int>, V: array<int>, base: seq<Byte>)
    returns (ghost P: seq<int>)
    requires I != V && I.Length == V.Length == |base| + 1
    modifies I, V
    ensures Tiled(base, Snapshot(P, V[..], I[..]), 1)
  {
    var buckets := new int[256];
    CountBytes(buckets, base);
    CountsToEnds(buckets, base);
    EndsToStarts(buckets, base);
    PlaceByFirstByte(I, buckets, base);
    P := I[..];
    FilledSlots(base, P);
    assert forall c :: 0 <= c < 256 ==> buckets[c] == buckets[..][c] == Below(base, c + 1);
    RankByFirstByte(V, buckets, base);
    MarkSingles(I, V, buckets, base, P);
  }

  /** qsufsort: on return I is the suffix array of base, and V its inverse. */
  method QSufSort(I: array<int>, V: array<int>, base: seq<Byte>)
    requires I != V && I.Length == V.Length == |base| + 1
    modifies I, V
    ensures IsSuffixArray(base, I[..])
    ensures forall k :: 0 <= k <= |base| ==> V[I[k]] == k
  {
    var oldsize := |base|;
    ghost var P := BucketStart(I, V, base);
    var h := 1;
    while I[0] != -(oldsize + 1)
      invariant h >= 1
      invariant Tiled(base, Snapshot(P, V[..], I[..]), h)
      decreases if I[0] == -(oldsize + 1) then 0 else 1 + (if h <= oldsize then oldsize + 1 - h else 0)
    {
      if h > oldsize {
        LongStepsLeaveRuns(base, Snapshot(P, V[..], I[..]), h);
      }
      P := Pass(I, V, oldsize, h, base, P);
      h := h + h;
    }
    OneRun(base, Snapshot(P, V[..], I[..]), h);
    InvertRanks(I, V, oldsize, P);
  }
}
