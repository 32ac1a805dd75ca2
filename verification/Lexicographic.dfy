/** Lexicographic order on sequences of symbols, with a proper prefix coming first.
    It is the order of memcmp followed by length, and of strcmp on zero-free strings. */
module Lexicographic {

  /** s and t agree on their first k symbols, and s goes first because of what follows. */
  ghost predicate DiffersAt(s: seq<int>, t: seq<int>, k: nat) {
    && k <= |s| && k < |t|
    && s[..k] == t[..k]
    && (k == |s| || s[k] < t[k])
  }

  ghost predicate Less(s: seq<int>, t: seq<int>) {
    exists k: nat :: DiffersAt(s, t, k)
  }

  /** The order by first symbols: nothing is less than the empty sequence, which is less than any other; and
      otherwise the smaller first symbol decides, or what follows an equal one. */
  lemma HeadDecides(s: seq<int>, t: seq<int>)
    ensures Less(s, t) <==> t != [] && (s == [] || s[0] < t[0] || (s[0] == t[0] && Less(s[1..], t[1..])))
  {
    if k: nat :| DiffersAt(s, t, k) {
      if k > 0 {
        assert s[..k][0] == t[..k][0];
        assert s[1..][..k - 1] == s[..k][1..] == t[..k][1..] == t[1..][..k - 1];
        assert DiffersAt(s[1..], t[1..], k - 1);
      }
    }
    if t != [] && (s == [] || s[0] < t[0]) {
      assert DiffersAt(s, t, 0);
    } else if s != [] && t != [] && s[0] == t[0] && Less(s[1..], t[1..]) {
      Prepend([s[0]], s[1..], t[1..]);
      assert s == [s[0]] + s[1..] && t == [t[0]] + t[1..];
    }
  }

  lemma Irreflexive(s: seq<int>)
    ensures !Less(s, s)
  {
  }

  lemma Asymmetric(s: seq<int>, t: seq<int>)
    requires Less(s, t)
    ensures !Less(t, s)
  {
    var j: nat :| DiffersAt(s, t, j);
    if k: nat :| DiffersAt(t, s, k) {
      assert false;
    }
  }

  lemma Transitive(s: seq<int>, t: seq<int>, u: seq<int>)
    requires Less(s, t) && Less(t, u)
    ensures Less(s, u)
  {
    var j: nat :| DiffersAt(s, t, j);
    var k: nat :| DiffersAt(t, u, k);
    var m := if j < k then j else k;
    assert s[..m] == s[..j][..m] == t[..j][..m] == t[..m];
    assert t[..m] == t[..k][..m] == u[..k][..m] == u[..m];
    if j < k {
      assert t[..k][j] == u[..k][j];
    } else if k < j {
      assert s[..j][k] == t[..j][k];
    }
    assert DiffersAt(s, u, m);
  }

  lemma {:induction false} Total(s: seq<int>, t: seq<int>)
    requires s != t
    ensures Less(s, t) || Less(t, s)
  {
    if s == [] {
      assert DiffersAt(s, t, 0);
    } else if t == [] {
      assert DiffersAt(t, s, 0);
    } else if s[0] < t[0] {
      assert DiffersAt(s, t, 0);
    } else if t[0] < s[0] {
      assert DiffersAt(t, s, 0);
    } else {
      assert s == [s[0]] + s[1..] && t == [t[0]] + t[1..];
      Total(s[1..], t[1..]);
      if Less(s[1..], t[1..]) {
        Prepend([s[0]], s[1..], t[1..]);
      } else {
        Prepend([s[0]], t[1..], s[1..]);
      }
    }
  }

  /** A common prefix does not change the order. */
  lemma Prepend(p: seq<int>, s: seq<int>, t: seq<int>)
    requires Less(s, t)
    ensures Less(p + s, p + t)
  {
    var k: nat :| DiffersAt(s, t, k);
    assert (p + s)[..|p| + k] == p + s[..k];
    assert (p + t)[..|p| + k] == p + t[..k];
    assert DiffersAt(p + s, p + t, |p| + k);
  }
}
