/** matchlen and search: looking up a piece of the target in the suffix array of the base. */
module Matching {
  import Lex = Lexicographic
  import opened SuffixOrder

  /** n is how far base from a and target from b agree. */
  ghost predicate AgreeFor(base: seq<Byte>, a: int, target: seq<Byte>, b: int, n: int) {
    && 0 <= a && 0 <= b && 0 <= n && a + n <= |base| && b + n <= |target|
    && base[a..a + n] == target[b..b + n]
    && (a + n < |base| && b + n < |target| ==> base[a + n] != target[b + n])
  }

  lemma AgreeForUnique(base: seq<Byte>, a: int, target: seq<Byte>, b: int, m: int, n: int)
    requires AgreeFor(base, a, target, b, m) && AgreeFor(base, a, target, b, n)
    ensures m == n
  {
    SymbolsAgree(base, a, target, b, m, n);
    SymbolsAgree(base, a, target, b, n, m);
  }

  lemma SymbolsAgree(base: seq<Byte>, a: int, target: seq<Byte>, b: int, n: int, k: int)
    requires AgreeFor(base, a, target, b, n) && 0 <= k
    ensures k < n ==> base[a + k] == target[b + k]
  {
    if k < n {
      assert base[a..a + n][k] == target[b..b + n][k];
    }
  }

  method MatchLen(base: seq<Byte>, a: nat, target: seq<Byte>, b: nat) returns (i: nat)
    requires a <= |base| && b <= |target|
    ensures AgreeFor(base, a, target, b, i)
  {
    i := 0;
    while i < |base| - a && i < |target| - b
      invariant a + i <= |base| && b + i <= |target|
      invariant base[a..a + i] == target[b..b + i]
    {
      if base[a + i] != target[b + i] {
        break;
      }
      assert base[a..a + i + 1] == base[a..a + i] + [base[a + i]];
      assert target[b..b + i + 1] == target[b..b + i] + [target[b + i]];
      i := i + 1;
    }
  }

  /** memcmp on the shorter of the two lengths: is s less than t where they first differ? */
  predicate MemLess(s: seq<Byte>, t: seq<Byte>) {
    s != [] && t != [] && (s[0] < t[0] || (s[0] == t[0] && MemLess(s[1..], t[1..])))
  }

  /** The comparison that search makes is the lexicographic one except on proper prefixes. */
  lemma {:induction false} MemLessIsLess(s: seq<Byte>, t: seq<Byte>)
    ensures MemLess(s, t) <==> Lex.Less(s, t) && !(s <= t)
  {
    if s == [] || t == [] {
      assert t == [] ==> !Lex.Less(s, t);
    } else if s[0] != t[0] {
      if s[0] < t[0] {
        assert Lex.DiffersAt(s, t, 0);
      } else {
        assert Lex.DiffersAt(t, s, 0);
        Lex.Asymmetric(t, s);
      }
    } else {
      MemLessIsLess(s[1..], t[1..]);
      assert s == [s[0]] + s[1..] && t == [t[0]] + t[1..];
      if Lex.Less(s[1..], t[1..]) {
        Lex.Prepend([s[0]], s[1..], t[1..]);
      } else if Lex.Less(t[1..], s[1..]) {
        Lex.Prepend([s[0]], t[1..], s[1..]);
        Lex.Asymmetric(t, s);
      } else {
        if s[1..] != t[1..] {
          Lex.Total(s[1..], t[1..]);
        }
        Lex.Irreflexive(s);
      }
    }
  }

  // ---------------------------------------------------------------- search

  /** How far the suffix at a of base agrees with t. */
  function CommonPrefix(s: seq<Byte>, t: seq<Byte>): nat {
    if s == [] || t == [] || s[0] != t[0] then 0 else 1 + CommonPrefix(s[1..], t[1..])
  }

  lemma {:induction false} CommonPrefixAgrees(base: seq<Byte>, a: nat, target: seq<Byte>, b: nat)
    requires a <= |base| && b <= |target|
    ensures AgreeFor(base, a, target, b, CommonPrefix(base[a..], target[b..]))
    decreases |base| - a
  {
    if a < |base| && b < |target| && base[a] == target[b] {
      CommonPrefixAgrees(base, a + 1, target, b + 1);
      assert base[a..][1..] == base[a + 1..] && target[b..][1..] == target[b + 1..];
      var n := CommonPrefix(base[a + 1..], target[b + 1..]);
      assert base[a..a + 1 + n] == [base[a]] + base[a + 1..a + 1 + n];
      assert target[b..b + 1 + n] == [target[b]] + target[b + 1..b + 1 + n];
    }
  }

  /** What search computes: the length and position it returns for index range st..en. */
  function Found(I: seq<int>, base: seq<Byte>, t: seq<Byte>, st: int, en: int): (int, int)
    requires 0 <= st <= en < |I| && forall k :: 0 <= k < |I| ==> 0 <= I[k] <= |base|
    decreases en - st
  {
    if en - st < 2 then
      var x, y := CommonPrefix(base[I[st]..], t), CommonPrefix(base[I[en]..], t);
      if x > y then (x, I[st]) else (y, I[en])
    else
      var x := st + (en - st) / 2;
      if MemLess(base[I[x]..], t) then Found(I, base, t, x, en) else Found(I, base, t, st, x)
  }

  lemma {:induction false} FoundFits(I: seq<int>, base: seq<Byte>, t: seq<Byte>, st: int, en: int)
    requires 0 <= st <= en < |I| && forall k :: 0 <= k < |I| ==> 0 <= I[k] <= |base|
    ensures 0 <= Found(I, base, t, st, en).0 <= |t|
    decreases en - st
  {
    if en - st < 2 {
      CommonPrefixAgrees(base, I[st], t, 0);
      CommonPrefixAgrees(base, I[en], t, 0);
      assert t[0..] == t;
    } else {
      var x := st + (en - st) / 2;
      FoundFits(I, base, t, x, en);
      FoundFits(I, base, t, st, x);
    }
  }

  /** Where the search ends, the longer of the two matches is taken, and the upper one if they are equal. */
  lemma FoundAtEnds(I: seq<int>, base: seq<Byte>, target: seq<Byte>, b: nat, st: int, en: int, x: int, y: int)
    requires 0 <= st <= en < |I| && en - st < 2 && forall k :: 0 <= k < |I| ==> 0 <= I[k] <= |base|
    requires b <= |target| && AgreeFor(base, I[st], target, b, x) && AgreeFor(base, I[en], target, b, y)
    ensures Found(I, base, target[b..], st, en) == if x > y then (x, I[st]) else (y, I[en])
  {
    CommonPrefixAgrees(base, I[st], target, b);
    CommonPrefixAgrees(base, I[en], target, b);
    AgreeForUnique(base, I[st], target, b, x, CommonPrefix(base[I[st]..], target[b..]));
    AgreeForUnique(base, I[en], target, b, y, CommonPrefix(base[I[en]..], target[b..]));
  }

  /** search: binary search for target[b..]; what it returns is a genuine match that cannot be
      extended at that position, whatever the order of I. */
  method Search(I: array<int>, base: seq<Byte>, target: seq<Byte>, b: nat, st: int, en: int)
    returns (len: int, pos: int)
    requires b <= |target| && 0 <= st <= en < I.Length
    requires forall k :: 0 <= k < I.Length ==> 0 <= I[k] <= |base|
    ensures 0 <= pos <= |base| && AgreeFor(base, pos, target, b, len)
    ensures exists k :: st <= k <= en && I[k] == pos
    ensures (len, pos) == Found(I[..], base, target[b..], st, en)
    decreases en - st
  {
    if en - st < 2 {
      var x := MatchLen(base, I[st], target, b);
      var y := MatchLen(base, I[en], target, b);
      CommonPrefixAgrees(base, I[st], target, b);
      CommonPrefixAgrees(base, I[en], target, b);
      AgreeForUnique(base, I[st], target, b, x, CommonPrefix(base[I[st]..], target[b..]));
      AgreeForUnique(base, I[en], target, b, y, CommonPrefix(base[I[en]..], target[b..]));
      if x > y {
        return x, I[st];
      } else {
        return y, I[en];
      }
    }
    var x := st + (en - st) / 2;
    if MemLess(base[I[x]..], target[b..]) {
      len, pos := Search(I, base, target, b, x, en);
    } else {
      len, pos := Search(I, base, target, b, st, x);
    }
  }

  // ---------------------------------------------------------------- when the match is longest

  /** No non-empty suffix of base is a proper prefix of t. */
  ghost predicate NoTruncatedTie(base: seq<Byte>, t: seq<Byte>) {
    forall a :: 0 <= a < |base| ==> !(base[a..] <= t && base[a..] != t)
  }

  /** The closer to t, the longer the common prefix: from below, and from above. */
  lemma {:induction false} CloserBelow(s: seq<Byte>, u: seq<Byte>, t: seq<Byte>)
    requires s == u || Lex.Less(s, u)
    requires Lex.Less(u, t)
    ensures CommonPrefix(s, t) <= CommonPrefix(u, t)
  {
    if s != u && s != [] && t != [] && s[0] == t[0] {
      HeadsOrdered(s, u);
      HeadsOrdered(u, t);
      CloserBelow(s[1..], u[1..], t[1..]);
    }
  }

  lemma {:induction false} CloserAbove(t: seq<Byte>, u: seq<Byte>, s: seq<Byte>)
    requires s == u || Lex.Less(u, s)
    requires t == u || Lex.Less(t, u)
    ensures CommonPrefix(s, t) <= CommonPrefix(u, t)
  {
    if s != u && t != u && s != [] && t != [] && s[0] == t[0] {
      HeadsOrdered(u, s);
      HeadsOrdered(t, u);
      CloserAbove(t[1..], u[1..], s[1..]);
    } else if t == u {
      WholePrefix(u, s);
    }
  }

  lemma {:induction false} WholePrefix(u: seq<Byte>, s: seq<Byte>)
    ensures CommonPrefix(s, u) <= |u| == CommonPrefix(u, u)
  {
    if u != [] {
      WholePrefix(u[1..], if s == [] then [] else s[1..]);
    }
  }

  /** Taking apart a lexicographic comparison at the first symbol. */
  lemma HeadsOrdered(s: seq<Byte>, t: seq<Byte>)
    requires Lex.Less(s, t)
    ensures t != []
    ensures s != [] ==> s[0] <= t[0]
    ensures s != [] && s[0] == t[0] ==> Lex.Less(s[1..], t[1..])
  {
    var k: nat :| Lex.DiffersAt(s, t, k);
    if k > 0 {
      assert s[..k][0] == t[..k][0];
      assert s[1..][..k - 1] == s[..k][1..] == t[..k][1..] == t[1..][..k - 1];
      assert Lex.DiffersAt(s[1..], t[1..], k - 1);
    }
  }

  lemma FoundStep(I: seq<int>, base: seq<Byte>, t: seq<Byte>, st: int, en: int, x: int)
    requires 0 <= st <= en < |I| && forall k :: 0 <= k < |I| ==> 0 <= I[k] <= |base|
    requires 2 <= en - st && x == st + (en - st) / 2
    ensures Found(I, base, t, st, en)
        == if MemLess(base[I[x]..], t) then Found(I, base, t, x, en) else Found(I, base, t, st, x)
  {
  }

  /** Only index 0 holds the empty suffix. */
  lemma EmptySuffixFirst(base: seq<Byte>, I: seq<int>, x: int)
    requires IsSuffixArray(base, I) && 0 < x <= |base|
    ensures I[x] < |base|
  {
    assert Before(base, I[0], I[x]);
    HeadsOrdered(base[I[0]..], base[I[x]..]);
  }

  /** No position of base matches t for more than n. */
  ghost predicate NoLonger(base: seq<Byte>, t: seq<Byte>, n: int) {
    forall a :: 0 <= a <= |base| ==> CommonPrefix(base[a..], t) <= n
  }

  /** The comparison at index x is cut short by the end of base: the suffix there is all used up on t,
      and counts as no less than t, although some position matches longer. */
  ghost predicate CutShort(base: seq<Byte>, I: seq<int>, t: seq<Byte>, x: int)
    requires IsSuffixArray(base, I) && 0 <= x <= |base|
  {
    base[I[x]..] <= t && !NoLonger(base, t, |base| - I[x])
  }

  /** No comparison that the halving makes is cut short. */
  ghost predicate NeverCutShort(base: seq<Byte>, I: seq<int>, t: seq<Byte>, st: int, en: int)
    requires IsSuffixArray(base, I) && 0 <= st <= en <= |base|
    decreases en - st
  {
    en - st < 2
    || (var x := st + (en - st) / 2;
        && !CutShort(base, I, t, x)
        && if MemLess(base[I[x]..], t) then NeverCutShort(base, I, t, x, en) else NeverCutShort(base, I, t, st, x))
  }

  /** What lies outside st..en matches no longer than the nearer end of it. */
  ghost predicate Encloses(base: seq<Byte>, I: seq<int>, t: seq<Byte>, st: int, en: int)
    requires IsSuffixArray(base, I) && 0 <= st <= en <= |base|
  {
    && (forall k :: 0 <= k < st ==> CommonPrefix(base[I[k]..], t) <= CommonPrefix(base[I[st]..], t))
    && (forall k :: en < k <= |base| ==> CommonPrefix(base[I[k]..], t) <= CommonPrefix(base[I[en]..], t))
  }

  /** Below a suffix that is less than t, nothing matches longer. */
  lemma NoneBelow(base: seq<Byte>, I: seq<int>, t: seq<Byte>, x: int)
    requires IsSuffixArray(base, I) && 0 <= x <= |base| && Lex.Less(base[I[x]..], t)
    ensures forall k :: 0 <= k <= x ==> CommonPrefix(base[I[k]..], t) <= CommonPrefix(base[I[x]..], t)
  {
    forall k | 0 <= k <= x
      ensures CommonPrefix(base[I[k]..], t) <= CommonPrefix(base[I[x]..], t)
    {
      if k < x {
        assert Before(base, I[k], I[x]);
        CloserBelow(base[I[k]..], base[I[x]..], t);
      }
    }
  }

  /** Above a suffix that is not, neither. */
  lemma NoneAbove(base: seq<Byte>, I: seq<int>, t: seq<Byte>, x: int)
    requires IsSuffixArray(base, I) && 0 <= x <= |base| && !Lex.Less(base[I[x]..], t)
    ensures forall k :: x <= k <= |base| ==> CommonPrefix(base[I[k]..], t) <= CommonPrefix(base[I[x]..], t)
  {
    if t != base[I[x]..] {
      Lex.Total(base[I[x]..], t);
    }
    forall k | x <= k <= |base|
      ensures CommonPrefix(base[I[k]..], t) <= CommonPrefix(base[I[x]..], t)
    {
      if x < k {
        assert Before(base, I[x], I[k]);
        CloserAbove(t, base[I[x]..], base[I[k]..]);
      }
    }
  }

  lemma {:induction false} PrefixShared(s: seq<Byte>, t: seq<Byte>)
    requires s <= t
    ensures CommonPrefix(s, t) == |s|
  {
    if s != [] {
      assert s[0] == t[0] && s[1..] <= t[1..];
      PrefixShared(s[1..], t[1..]);
    }
  }

  /** A comparison that is not cut short sends the search to the side of the longer matches. */
  lemma ComparisonEncloses(base: seq<Byte>, I: seq<int>, t: seq<Byte>, st: int, en: int, x: int)
    requires IsSuffixArray(base, I) && 0 <= st <= x <= en <= |base| && Encloses(base, I, t, st, en)
    requires !CutShort(base, I, t, x)
    ensures if MemLess(base[I[x]..], t) then Encloses(base, I, t, x, en) else Encloses(base, I, t, st, x)
  {
    MemLessIsLess(base[I[x]..], t);
    if MemLess(base[I[x]..], t) {
      NoneBelow(base, I, t, x);
    } else if base[I[x]..] <= t {
      PrefixShared(base[I[x]..], t);
    } else {
      NoneAbove(base, I, t, x);
    }
  }

  lemma {:induction false} FoundAtMost(base: seq<Byte>, I: seq<int>, t: seq<Byte>, st: int, en: int, n: nat)
    requires IsSuffixArray(base, I) && 0 <= st <= en <= |base|
    requires forall k :: st <= k <= en ==> CommonPrefix(base[I[k]..], t) <= n
    ensures Found(I, base, t, st, en).0 <= n
    decreases en - st
  {
    if en - st >= 2 {
      var x := st + (en - st) / 2;
      FoundStep(I, base, t, st, en, x);
      if MemLess(base[I[x]..], t) {
        FoundAtMost(base, I, t, x, en, n);
      } else {
        FoundAtMost(base, I, t, st, x, n);
      }
    }
  }

  /** After a comparison that is cut short the search stays below the longer matches. */
  lemma CutShortMisses(base: seq<Byte>, I: seq<int>, t: seq<Byte>, st: int, x: int)
    requires IsSuffixArray(base, I) && 0 <= st <= x <= |base| && 0 < x && CutShort(base, I, t, x)
    ensures !MemLess(base[I[x]..], t) && !NoLonger(base, t, Found(I, base, t, st, x).0)
  {
    var s := base[I[x]..];
    MemLessIsLess(s, t);
    PrefixShared(s, t);
    var a :| 0 <= a <= |base| && CommonPrefix(base[a..], t) > |s|;
    CommonAtMost(base[a..], t);
    assert Lex.DiffersAt(s, t, |s|);
    NoneBelow(base, I, t, x);
    FoundAtMost(base, I, t, st, x, |s|);
  }

  lemma {:induction false} CommonAtMost(s: seq<Byte>, t: seq<Byte>)
    ensures CommonPrefix(s, t) <= |t|
  {
    if s != [] && t != [] {
      CommonAtMost(s[1..], t[1..]);
    }
  }

  lemma EndsLongest(base: seq<Byte>, I: seq<int>, t: seq<Byte>, st: int, en: int)
    requires IsSuffixArray(base, I) && 0 <= st <= en <= |base| && en - st < 2 && Encloses(base, I, t, st, en)
    ensures NoLonger(base, t, Found(I, base, t, st, en).0)
  {
    forall a | 0 <= a <= |base|
      ensures CommonPrefix(base[a..], t) <= Found(I, base, t, st, en).0
    {
      var k := Surjective(I, a);
    }
  }

  lemma NeverStep(base: seq<Byte>, I: seq<int>, t: seq<Byte>, st: int, en: int, x: int)
    requires IsSuffixArray(base, I) && 0 <= st <= en <= |base| && 2 <= en - st && x == st + (en - st) / 2
    ensures NeverCutShort(base, I, t, st, en)
        <==> !CutShort(base, I, t, x)
             && if MemLess(base[I[x]..], t) then NeverCutShort(base, I, t, x, en) else NeverCutShort(base, I, t, st, x)
  {
  }

  lemma {:induction false} LongestUnlessCutShort(base: seq<Byte>, I: seq<int>, t: seq<Byte>, st: int, en: int)
    requires IsSuffixArray(base, I) && 0 <= st <= en <= |base| && Encloses(base, I, t, st, en)
    ensures NoLonger(base, t, Found(I, base, t, st, en).0) <==> NeverCutShort(base, I, t, st, en)
    decreases en - st
  {
    if en - st < 2 {
      EndsLongest(base, I, t, st, en);
    } else {
      var x := st + (en - st) / 2;
      FoundStep(I, base, t, st, en, x);
      NeverStep(base, I, t, st, en, x);
      if CutShort(base, I, t, x) {
        CutShortMisses(base, I, t, st, x);
      } else {
        ComparisonEncloses(base, I, t, st, en, x);
        if MemLess(base[I[x]..], t) {
          LongestUnlessCutShort(base, I, t, x, en);
        } else {
          LongestUnlessCutShort(base, I, t, st, x);
        }
      }
    }
  }

  /** search over the whole suffix array finds a longest match if and only if no comparison that it makes
      is cut short by the end of base. */
  lemma SearchIsLongestExactly(base: seq<Byte>, I: seq<int>, t: seq<Byte>)
    requires IsSuffixArray(base, I)
    ensures NoLonger(base, t, Found(I, base, t, 0, |base|).0) <==> NeverCutShort(base, I, t, 0, |base|)
  {
    LongestUnlessCutShort(base, I, t, 0, |base|);
  }

  lemma {:induction false} TiesNeverCut(base: seq<Byte>, I: seq<int>, t: seq<Byte>, st: int, en: int)
    requires IsSuffixArray(base, I) && NoTruncatedTie(base, t) && 0 <= st <= en <= |base|
    ensures NeverCutShort(base, I, t, st, en)
    decreases en - st
  {
    if en - st >= 2 {
      var x := st + (en - st) / 2;
      EmptySuffixFirst(base, I, x);
      if base[I[x]..] <= t {
        assert base[I[x]..] == t;
        forall a | 0 <= a <= |base|
          ensures CommonPrefix(base[a..], t) <= |base| - I[x]
        {
          CommonAtMost(base[a..], t);
        }
      }
      TiesNeverCut(base, I, t, x, en);
      TiesNeverCut(base, I, t, st, x);
    }
  }

  /** So it does whatever path the halving takes when no suffix of base is a proper prefix of t. */
  lemma SearchIsLongest(base: seq<Byte>, I: seq<int>, t: seq<Byte>)
    requires IsSuffixArray(base, I) && NoTruncatedTie(base, t)
    ensures forall a :: 0 <= a <= |base| ==> CommonPrefix(base[a..], t) <= Found(I, base, t, 0, |base|).0
  {
    TiesNeverCut(base, I, t, 0, |base|);
    SearchIsLongestExactly(base, I, t);
  }

  /** Otherwise it may not: in "aba" the search for "ab" returns "a" at 2, although
      "ab" occurs at 0. */
  lemma SearchMayFallShort()
    ensures var base, I, t := [97, 98, 97], [3, 2, 0, 1], [97, 98];
      && IsSuffixArray(base, I)
      && Found(I, base, t, 0, 3) == (1, 2)
      && CommonPrefix(base[0..], t) == 2
  {
    var base: seq<Byte>, I, t: seq<Byte> := [97, 98, 97], [3, 2, 0, 1], [97, 98];
    assert base[3..] == [] && base[2..] == [97] && base[1..] == [98, 97] && base[0..] == base;
    assert Lex.DiffersAt(base[3..], base[2..], 0) && Lex.DiffersAt(base[3..], base[0..], 0) &&
        Lex.DiffersAt(base[3..], base[1..], 0);
    assert Lex.DiffersAt(base[2..], base[0..], 1) && Lex.DiffersAt(base[2..], base[1..], 0);
    assert Lex.DiffersAt(base[0..], base[1..], 0);
    assert !MemLess(base[2..], t) by {
      MemLessIsLess([97], t);
    }
    assert Found(I, base, t, 0, 3) == Found(I, base, t, 0, 1);
    assert CommonPrefix(base[2..], t) == 1 + CommonPrefix([], [98]);
    assert CommonPrefix(base[0..], t) == 1 + CommonPrefix([98, 97], [98]);
  }
}
