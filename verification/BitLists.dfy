/** Bits written one item after another, each where the one before it ended. */
module BitLists {
  import opened BitCodes

  /** How an item is written behind the items before it, at a cursor. */
  type Writer<!A> = (seq<A>, A, nat) -> seq<bool>

  function Written<A>(w: Writer<A>, xs: seq<A>, c: nat): seq<bool> {
    if xs == [] then []
    else
      var first := Written(w, xs[..|xs| - 1], c);
      first + w(xs[..|xs| - 1], xs[|xs| - 1], c + |first|)
  }

  ghost predicate Split<A>(xs: seq<A>, before: seq<A>, last: A) {
    xs != [] && before == xs[..|xs| - 1] && last == xs[|xs| - 1]
  }

  lemma WrittenStep<A>(w: Writer<A>, xs: seq<A>, before: seq<A>, last: A, c: nat, next: nat)
    requires Split(xs, before, last) && next == c + |Written(w, before, c)|
    ensures Written(w, xs, c) == Written(w, before, c) + w(before, last, next)
  {
  }

  /** The same, seen from the whole stream. */
  lemma WrittenOnto<A>(w: Writer<A>, xs: seq<A>, before: seq<A>, last: A, start: seq<bool>, c: nat, was: seq<bool>)
    requires Split(xs, before, last) && c == |start| && was == start + Written(w, before, c)
    ensures was + w(before, last, |was|) == start + Written(w, xs, c)
  {
    var next := |was|;
    WrittenStep(w, xs, before, last, c, next);
  }

  lemma WrittenParts<A>(w: Writer<A>, xs: seq<A>, before: seq<A>, last: A, c: nat, next: nat, s: seq<bool>,
                        bits: seq<bool>)
    requires Split(xs, before, last) && Starts(s, c, Written(w, xs, c))
    requires next == c + |Written(w, before, c)| && bits == w(before, last, next)
    ensures Starts(s, c, Written(w, before, c)) && Starts(s, next, bits)
    ensures c + |Written(w, xs, c)| == next + |bits|
  {
    WrittenStep(w, xs, before, last, c, next);
    StartsParts(s, c, Written(w, xs, c), Written(w, before, c), bits, next);
  }

  lemma {:induction false} WrittenPrefix<A>(w: Writer<A>, xs: seq<A>, c: nat, s: seq<bool>, j: nat)
    requires j <= |xs| && Starts(s, c, Written(w, xs, c))
    ensures Starts(s, c, Written(w, xs[..j], c))
    decreases |xs|
  {
    if j == |xs| {
      assert xs[..j] == xs;
    } else {
      var before, last := xs[..|xs| - 1], xs[|xs| - 1];
      assert before[..j] == xs[..j];
      var next := c + |Written(w, before, c)|;
      WrittenParts(w, xs, before, last, c, next, s, w(before, last, next));
      WrittenPrefix(w, before, c, s, j);
    }
  }

  /** The same thing written n times. */
  function Repeated(w: nat -> seq<bool>, c: nat, n: nat): seq<bool> {
    if n == 0 then []
    else
      var first := Repeated(w, c, n - 1);
      first + w(c + |first|)
  }

  lemma RepeatedStep(w: nat -> seq<bool>, c: nat, n: nat, next: nat)
    requires next == c + |Repeated(w, c, n)|
    ensures Repeated(w, c, n + 1) == Repeated(w, c, n) + w(next)
  {
  }

  lemma RepeatedOnto(w: nat -> seq<bool>, start: seq<bool>, c: nat, n: nat, was: seq<bool>)
    requires c == |start| && was == start + Repeated(w, c, n)
    ensures was + w(|was|) == start + Repeated(w, c, n + 1)
  {
    var next := |was|;
    RepeatedStep(w, c, n, next);
  }

  lemma RepeatedParts(w: nat -> seq<bool>, c: nat, n: nat, next: nat, s: seq<bool>, bits: seq<bool>)
    requires n > 0 && Starts(s, c, Repeated(w, c, n))
    requires next == c + |Repeated(w, c, n - 1)| && bits == w(next)
    ensures Starts(s, c, Repeated(w, c, n - 1)) && Starts(s, next, bits)
    ensures c + |Repeated(w, c, n)| == next + |bits|
  {
    RepeatedStep(w, c, n - 1, next);
    StartsParts(s, c, Repeated(w, c, n), Repeated(w, c, n - 1), bits, next);
  }
}
