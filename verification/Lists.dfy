/** Removing elements from a list, in order or by moving the last one in. */
module Lists {

  function RemovedAt<T>(s: seq<T>, i: nat): (r: seq<T>)
    requires i < |s|
    ensures |r| == |s| - 1
  {
    s[..i] + s[i + 1..]
  }

  /** RemoveAtIndexFast: the last element takes the place of the removed one. */
  function RemovedFast<T>(s: seq<T>, i: nat): (r: seq<T>)
    requires i < |s|
    ensures |r| == |s| - 1
  {
    s[i := s[|s| - 1]][..|s| - 1]
  }

  function InsertedAt<T>(s: seq<T>, p: nat, x: T): (r: seq<T>)
    requires p <= |s|
    ensures |r| == |s| + 1
  {
    s[..p] + [x] + s[p..]
  }

  lemma InsertedAtMembers<T>(s: seq<T>, p: nat, x: T)
    requires p <= |s|
    ensures forall y :: y in InsertedAt(s, p, x) <==> y in s || y == x
  {
    assert s == s[..p] + s[p..];
  }

  lemma RemovedAtMembers<T>(s: seq<T>, i: nat)
    requires i < |s|
    ensures forall x :: x in RemovedAt(s, i) ==> x in s
    ensures forall x :: x in s && x != s[i] ==> x in RemovedAt(s, i)
  {
    assert s == s[..i] + [s[i]] + s[i + 1..];
  }

  lemma RemovedFastElements<T>(s: seq<T>, i: nat)
    requires i < |s|
    ensures multiset(RemovedFast(s, i)) == multiset(s) - multiset{s[i]}
  {
    var n := |s| - 1;
    if i == n {
      assert RemovedFast(s, i) == s[..n] && s == s[..n] + [s[n]];
    } else {
      RemovedFastParts(s, i, n);
      MovedElements(s, RemovedFast(s, i), s[..i], s[i], s[i + 1..n], s[n]);
    }
  }

  lemma RemovedFastParts<T>(s: seq<T>, i: nat, n: nat)
    requires i < n == |s| - 1
    ensures s == s[..i] + [s[i]] + s[i + 1..n] + [s[n]]
    ensures RemovedFast(s, i) == s[..i] + [s[n]] + s[i + 1..n]
  {
  }

  lemma MovedElements<T>(s: seq<T>, r: seq<T>, a: seq<T>, x: T, b: seq<T>, y: T)
    requires s == a + [x] + b + [y] && r == a + [y] + b
    ensures multiset(r) == multiset(s) - multiset{x}
  {
  }

  /** The first index of x, or the length. */
  function IndexOf<T(==)>(s: seq<T>, x: T): (i: nat)
    ensures i <= |s| && (i < |s| ==> s[i] == x) && forall j :: 0 <= j < i ==> s[j] != x
    ensures i < |s| <==> x in s
  {
    if s == [] || s[0] == x then 0 else 1 + IndexOf(s[1..], x)
  }

  /** Removing every x from index i on, each by moving the last element in. */
  function Swept<T(==)>(s: seq<T>, x: T, i: nat): seq<T>
    requires i <= |s|
    decreases |s| - i
  {
    if i == |s| then s
    else if s[i] == x then Swept(RemovedFast(s, i), x, i)
    else Swept(s, x, i + 1)
  }

  lemma {:induction false} SweptElements<T>(s: seq<T>, x: T, i: nat)
    requires i <= |s| && x !in s[..i]
    ensures multiset(Swept(s, x, i)) == multiset(s)[x := 0]
    decreases |s| - i
  {
    if i == |s| {
      assert s[..i] == s;
      assert x !in multiset(s);
    } else if s[i] == x {
      var u := RemovedFast(s, i);
      RemovedFastElements(s, i);
      assert u[..i] == s[..i];
      SweptElements(u, x, i);
      OneLess(multiset(s), multiset(u), x);
    } else {
      assert s[..i + 1] == s[..i] + [s[i]];
      SweptElements(s, x, i + 1);
    }
  }

  lemma OneLess<T>(m: multiset<T>, less: multiset<T>, x: T)
    requires less == m - multiset{x}
    ensures less[x := 0] == m[x := 0]
  {
  }
}
