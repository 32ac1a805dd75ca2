/** The ring of pointer tags that Deref and PtrToArray leave for the parameter writers.

    The ring has ten slots in use; cleared entries stay behind as holes until they reach the
    tail. */
module TagRing {

  const ARITY := 10

  /** A pointer, with 0 for the null pointer and for a hole. */
  type Ptr = nat

  datatype Tag = Tag(v: Ptr, count: nat, deref: bool, isArray: bool)

  /** What a call puts on a pointer: Deref, or PtrToArray with a count. */
  datatype Mark = Deref | Array(count: nat)

  /** What is known of a live pointer. */
  datatype Info = Info(count: nat, deref: bool, isArray: bool)

  // ---------------------------------------------------------------- the map

  function Fresh(m: Mark): Info {
    match m
    case Deref => Info(1, true, false)
    case Array(c) => Info(c, false, true)
  }

  function Merged(i: Info, m: Mark): Info {
    match m
    case Deref => i.(deref := true)
    case Array(c) => i.(count := c, isArray := true)
  }

  function Marked(tags: map<Ptr, Info>, p: Ptr, m: Mark): map<Ptr, Info> {
    tags[p := if p in tags then Merged(tags[p], m) else Fresh(m)]
  }

  /** Deref and PtrToArray on one pointer commute. */
  lemma MarksCommute(tags: map<Ptr, Info>, p: Ptr, c: nat)
    ensures Marked(Marked(tags, p, Deref), p, Array(c)) == Marked(Marked(tags, p, Array(c)), p, Deref)
  {
    var a := Marked(Marked(tags, p, Deref), p, Array(c));
    var b := Marked(Marked(tags, p, Array(c)), p, Deref);
    assert a[p] == b[p];
  }

  // ---------------------------------------------------------------- the window of the ring

  /** The map that a window of tags stands for; holes stand for nothing. */
  ghost function Meaning(w: seq<Tag>): map<Ptr, Info> {
    if w == [] then map[]
    else
      var m := Meaning(w[1..]);
      if w[0].v == 0 then m else m[w[0].v := Info(w[0].count, w[0].deref, w[0].isArray)]
  }

  /** Every live pointer occurs once. */
  ghost predicate Distinct(w: seq<Tag>) {
    forall i, j :: 0 <= i < j < |w| && w[i].v != 0 ==> w[i].v != w[j].v
  }

  lemma {:induction false} MeaningKeys(w: seq<Tag>, p: Ptr)
    ensures p in Meaning(w) <==> p != 0 && exists i :: 0 <= i < |w| && w[i].v == p
  {
    if w != [] {
      MeaningKeys(w[1..], p);
      if p in Meaning(w) && w[0].v != p {
        var i :| 0 <= i < |w[1..]| && w[1..][i].v == p;
        assert w[i + 1].v == p;
      }
      if p != 0 && exists i :: 0 <= i < |w| && w[i].v == p {
        var i :| 0 <= i < |w| && w[i].v == p;
        if i > 0 {
          assert w[1..][i - 1].v == p;
        }
      }
    }
  }

  lemma {:induction false} MeaningAt(w: seq<Tag>, i: nat)
    requires Distinct(w) && i < |w| && w[i].v != 0
    ensures w[i].v in Meaning(w) && Meaning(w)[w[i].v] == Info(w[i].count, w[i].deref, w[i].isArray)
  {
    if i > 0 {
      assert Distinct(w[1..]);
      MeaningAt(w[1..], i - 1);
      assert w[0].v != w[i].v;
    }
  }

  /** Replacing the tag of a live pointer, or making a hole of it. */
  lemma {:induction false} MeaningUpdate(w: seq<Tag>, i: nat, t: Tag)
    requires Distinct(w) && i < |w| && w[i].v != 0 && (t.v == w[i].v || t.v == 0)
    ensures Distinct(w[i := t])
    ensures Meaning(w[i := t])
         == if t.v == 0 then Meaning(w) - {w[i].v} else Meaning(w)[t.v := Info(t.count, t.deref, t.isArray)]
  {
    var u := w[i := t];
    assert Distinct(u);
    if i == 0 {
      assert u[1..] == w[1..];
      MeaningKeys(w[1..], w[0].v);
      assert w[0].v !in Meaning(w[1..]) by {
        assert forall k :: 0 <= k < |w[1..]| ==> w[1..][k].v == w[k + 1].v;
      }
    } else {
      assert u[1..] == w[1..][i - 1 := t];
      assert Distinct(w[1..]);
      MeaningUpdate(w[1..], i - 1, t);
      assert w[0].v != w[i].v;
    }
  }

  lemma {:induction false} MeaningAppend(w: seq<Tag>, t: Tag)
    requires t.v == 0 || forall i :: 0 <= i < |w| ==> w[i].v != t.v
    ensures Meaning(w + [t]) == if t.v == 0 then Meaning(w) else Meaning(w)[t.v := Info(t.count, t.deref, t.isArray)]
  {
    if w == [] {
      assert (w + [t])[1..] == [];
    } else {
      assert (w + [t])[1..] == w[1..] + [t];
      assert forall i :: 0 <= i < |w[1..]| ==> w[1..][i].v == w[i + 1].v;
      MeaningAppend(w[1..], t);
    }
  }

  /** The number of holes in front of the first live tag. */
  function Holes(w: seq<Tag>): (n: nat)
    ensures n <= |w| && (forall i :: 0 <= i < n ==> w[i].v == 0) && (n < |w| ==> w[n].v != 0)
  {
    if w == [] || w[0].v != 0 then 0 else 1 + Holes(w[1..])
  }

  lemma {:induction false} MeaningTrim(w: seq<Tag>, n: nat)
    requires n <= |w| && forall i :: 0 <= i < n ==> w[i].v == 0
    ensures Meaning(w[n..]) == Meaning(w)
  {
    if n == 0 {
      assert w[0..] == w;
    } else {
      assert w[1..][n - 1..] == w[n..];
      MeaningTrim(w[1..], n - 1);
    }
  }

  // ---------------------------------------------------------------- one call on a window

  /** The first index that holds p, or the length. */
  function IndexOf(w: seq<Tag>, p: Ptr): (i: nat)
    ensures i <= |w| && (forall j :: 0 <= j < i ==> w[j].v != p) && (i < |w| ==> w[i].v == p)
  {
    if w == [] || w[0].v == p then 0 else 1 + IndexOf(w[1..], p)
  }

  function Retagged(t: Tag, m: Mark): Tag {
    match m
    case Deref => t.(deref := true)
    case Array(c) => t.(count := c, isArray := true)
  }

  function NewTag(p: Ptr, m: Mark): Tag {
    var i := Fresh(m);
    Tag(p, i.count, i.deref, i.isArray)
  }

  /** A tag is merged into an equal pointer's, or added at the head if that leaves one slot free.
      Otherwise head meets tail: the assertion fails, and the ring reads as empty. */
  function Added(w: seq<Tag>, p: Ptr, m: Mark): (seq<Tag>, bool) {
    var i := IndexOf(w, p);
    if i < |w| then (w[i := Retagged(w[i], m)], true)
    else if |w| + 1 < ARITY then (w + [NewTag(p, m)], true)
    else ([], false)
  }

  /** A found pointer becomes a hole, and holes at the tail go. */
  function Cleared(w: seq<Tag>, p: Ptr): (seq<Tag>, Info, bool) {
    var i := IndexOf(w, p);
    if i < |w| then
      var u := w[i := w[i].(v := 0)];
      (u[Holes(u)..], Info(w[i].count, w[i].deref, w[i].isArray), true)
    else (w, Info(1, false, false), false)
  }

  /** Not empty with a hole at the tail. */
  ghost predicate Live(w: seq<Tag>) {
    w == [] || w[0].v != 0
  }

  lemma AddedMeaning(w: seq<Tag>, p: Ptr, m: Mark)
    requires Distinct(w) && p != 0
    ensures var (u, ok) := Added(w, p, m);
      && Distinct(u)
      && (ok ==> Meaning(u) == Marked(Meaning(w), p, m))
      && (Live(w) ==> Live(u))
      && (ok <==> p in Meaning(w) || |w| + 1 < ARITY)
  {
    var i := IndexOf(w, p);
    MeaningKeys(w, p);
    if i < |w| {
      MeaningAt(w, i);
      MeaningUpdate(w, i, Retagged(w[i], m));
    } else {
      MeaningAppend(w, NewTag(p, m));
    }
  }

  /** Tagging the null pointer changes nothing that the ring stands for, but on an empty ring it
      leaves a dead entry at the tail. */
  lemma AddedNull(w: seq<Tag>, m: Mark)
    requires Distinct(w)
    ensures var (u, ok) := Added(w, 0, m);
      && Distinct(u)
      && (ok ==> Meaning(u) == Meaning(w))
      && (ok && Live(w) ==> (Live(u) <==> w != []))
  {
    var i := IndexOf(w, 0);
    if i < |w| {
      HoleKept(w, i, Retagged(w[i], m));
    } else {
      MeaningAppend(w, NewTag(0, m));
    }
  }

  lemma AddedDistinct(w: seq<Tag>, p: Ptr, m: Mark)
    requires Distinct(w)
    ensures Distinct(Added(w, p, m).0)
  {
    if p != 0 {
      AddedMeaning(w, p, m);
    } else {
      AddedNull(w, m);
    }
  }

  lemma {:induction false} HoleKept(w: seq<Tag>, i: nat, t: Tag)
    requires i < |w| && w[i].v == 0 == t.v
    ensures Meaning(w[i := t]) == Meaning(w)
  {
    if i == 0 {
      assert w[i := t][1..] == w[1..];
    } else {
      assert w[i := t][1..] == w[1..][i - 1 := t];
      HoleKept(w[1..], i - 1, t);
    }
  }

  lemma DropDistinct(w: seq<Tag>, n: nat)
    requires Distinct(w) && n <= |w|
    ensures Distinct(w[n..])
  {
  }

  lemma ClearedMeaning(w: seq<Tag>, p: Ptr)
    requires Distinct(w) && p != 0
    ensures var (u, info, found) := Cleared(w, p);
      && Distinct(u)
      && (found <==> p in Meaning(w))
      && Meaning(u) == Meaning(w) - {p}
      && info == (if found then Meaning(w)[p] else Info(1, false, false))
      && (Live(w) ==> Live(u))
  {
    var i := IndexOf(w, p);
    MeaningKeys(w, p);
    if i < |w| {
      MeaningAt(w, i);
      var u := w[i := w[i].(v := 0)];
      MeaningUpdate(w, i, w[i].(v := 0));
      MeaningTrim(u, Holes(u));
      DropDistinct(u, Holes(u));
    }
  }

  // ---------------------------------------------------------------- runs

  datatype Call = Add(p: Ptr, m: Mark) | Clear(p: Ptr)

  /** What the calls return: for each Clear, the tag and whether there was one. */
  type Answers = seq<(Info, bool)>

  function RunMap(tags: map<Ptr, Info>, calls: seq<Call>): (map<Ptr, Info>, Answers)
    decreases |calls|
  {
    if calls == [] then (tags, [])
    else match calls[0]
      case Add(p, m) => RunMap(Marked(tags, p, m), calls[1..])
      case Clear(p) =>
        var (t, a) := RunMap(tags - {p}, calls[1..]);
        (t, [(if p in tags then tags[p] else Info(1, false, false), p in tags)] + a)
  }

  function RunRing(w: seq<Tag>, calls: seq<Call>): (seq<Tag>, Answers)
    decreases |calls|
  {
    if calls == [] then (w, [])
    else match calls[0]
      case Add(p, m) => RunRing(Added(w, p, m).0, calls[1..])
      case Clear(p) =>
        var (u, i, found) := Cleared(w, p);
        var (v, a) := RunRing(u, calls[1..]);
        (v, [(i, found)] + a)
  }

  /** No call is on the null pointer, and the assertion of Added never fails. */
  predicate WithinCapacity(w: seq<Tag>, calls: seq<Call>)
    decreases |calls|
  {
    calls == [] ||
    match calls[0]
    case Add(p, m) => p != 0 && Added(w, p, m).1 && WithinCapacity(Added(w, p, m).0, calls[1..])
    case Clear(p) => p != 0 && WithinCapacity(Cleared(w, p).0, calls[1..])
  }

  function Adds(calls: seq<Call>): nat {
    if calls == [] then 0 else (if calls[0].Add? then 1 else 0) + Adds(calls[1..])
  }

  lemma AddedLength(w: seq<Tag>, p: Ptr, m: Mark)
    requires |w| + 1 < ARITY
    ensures Added(w, p, m).1 && |Added(w, p, m).0| <= |w| + 1
  {
  }

  lemma ClearedLength(w: seq<Tag>, p: Ptr)
    ensures |Cleared(w, p).0| <= |w|
  {
  }

  /** A run is within capacity when it tags and clears no null pointer and tags less often than there are
      slots left: nine times on an empty ring. */
  lemma {:induction false} FewTagsFit(w: seq<Tag>, calls: seq<Call>)
    requires forall c :: c in calls ==> c.p != 0
    requires |w| + Adds(calls) < ARITY
    ensures WithinCapacity(w, calls)
    decreases |calls|
  {
    if calls != [] {
      assert calls[0] in calls;
      assert forall c :: c in calls[1..] ==> c in calls;
      match calls[0]
      case Add(p, m) =>
        AddedLength(w, p, m);
        FewTagsFit(Added(w, p, m).0, calls[1..]);
      case Clear(p) =>
        ClearedLength(w, p);
        FewTagsFit(Cleared(w, p).0, calls[1..]);
    }
  }

  /** Over every run within capacity the ring answers as the map does, stands for the map, keeps
      live pointers distinct and its tail live. */
  lemma {:induction false} RingRefinesMap(w: seq<Tag>, calls: seq<Call>)
    requires Distinct(w) && Live(w) && WithinCapacity(w, calls)
    ensures var (u, a), (t, b) := RunRing(w, calls), RunMap(Meaning(w), calls);
      a == b && Meaning(u) == t && Distinct(u) && Live(u)
    decreases |calls|
  {
    if calls != [] {
      match calls[0]
      case Add(p, m) =>
        AddedMeaning(w, p, m);
        RingRefinesMap(Added(w, p, m).0, calls[1..]);
      case Clear(p) =>
        ClearedMeaning(w, p);
        RingRefinesMap(Cleared(w, p).0, calls[1..]);
    }
  }

  /** A tag is handed out once: after a Clear, further Clears find nothing until the pointer is
      tagged again. */
  lemma {:induction false} ClearedOnce(w: seq<Tag>, p: Ptr, calls: seq<Call>)
    requires Distinct(w) && p != 0 && p !in Meaning(w)
    requires forall c :: c in calls ==> c.p != 0 && !(c.Add? && c.p == p)
    ensures var (u, i, found) := Cleared(RunRing(w, calls).0, p); !found && i == Info(1, false, false)
    decreases |calls|
  {
    if calls == [] {
      ClearedMeaning(w, p);
    } else {
      assert calls[0] in calls;
      var next := match calls[0] case Add(q, m) => Added(w, q, m).0 case Clear(q) => Cleared(w, q).0;
      match calls[0] {
        case Add(q, m) => AddedMeaning(w, q, m);
        case Clear(q) => ClearedMeaning(w, q);
      }
      assert forall c :: c in calls[1..] ==> c in calls;
      assert p !in Meaning(next);
      ClearedOnce(next, p, calls[1..]);
    }
  }

  // ---------------------------------------------------------------- what a tag says

  /** The marks that calls leave on p, in order, behind those before: all since it was last cleared. */
  function MarksOn(before: seq<Mark>, calls: seq<Call>, p: Ptr): seq<Mark>
    decreases |calls|
  {
    if calls == [] then before
    else match calls[0]
      case Add(q, m) => MarksOn(if q == p then before + [m] else before, calls[1..], p)
      case Clear(q) => MarksOn(if q == p then [] else before, calls[1..], p)
  }

  /** A tag with these marks: each flag if there is a mark for it, and the count of the last array. */
  ghost predicate Says(i: Info, marks: seq<Mark>) {
    && (i.deref <==> exists j :: 0 <= j < |marks| && marks[j] == Deref)
    && (i.isArray <==> exists j :: 0 <= j < |marks| && marks[j].Array?)
    && (forall j :: 0 <= j < |marks| && marks[j].Array? && (forall l :: j < l < |marks| ==> marks[l] == Deref) ==>
          i.count == marks[j].count)
    && ((forall j :: 0 <= j < |marks| ==> marks[j] == Deref) ==> i.count == 1)
  }

  /** The map has a tag for p if there are marks on it, and the tag says them. */
  ghost predicate Marks(tags: map<Ptr, Info>, p: Ptr, marks: seq<Mark>) {
    (p in tags <==> marks != []) && (p in tags ==> Says(tags[p], marks))
  }

  lemma OneMoreMark(tags: map<Ptr, Info>, p: Ptr, marks: seq<Mark>, m: Mark)
    requires Marks(tags, p, marks)
    ensures Marks(Marked(tags, p, m), p, marks + [m])
  {
    var more := marks + [m];
    assert more[|marks|] == m;
    assert forall j :: 0 <= j < |marks| ==> more[j] == marks[j];
    if m.Deref? && p in tags {
      assert Says(tags[p], marks);
    }
  }

  lemma {:induction false} RunMarks(tags: map<Ptr, Info>, calls: seq<Call>, p: Ptr, before: seq<Mark>)
    requires Marks(tags, p, before)
    ensures Marks(RunMap(tags, calls).0, p, MarksOn(before, calls, p))
    decreases |calls|
  {
    if calls != [] {
      match calls[0]
      case Add(q, m) =>
        if q == p {
          OneMoreMark(tags, p, before, m);
        }
        RunMarks(Marked(tags, q, m), calls[1..], p, if q == p then before + [m] else before);
      case Clear(q) => RunMarks(tags - {q}, calls[1..], p, if q == p then [] else before);
    }
  }

  /** What clearing a pointer returns after any run within capacity, in terms of the calls: the marks on it
      since it was last cleared, or one without flags. */
  lemma ClearedSays(calls: seq<Call>, p: Ptr)
    requires p != 0 && WithinCapacity([], calls)
    ensures var (u, i, found) := Cleared(RunRing([], calls).0, p);
      var marks := MarksOn([], calls, p);
      && (found <==> marks != [])
      && (i.deref <==> exists j :: 0 <= j < |marks| && marks[j] == Deref)
      && (i.isArray <==> exists j :: 0 <= j < |marks| && marks[j].Array?)
      && (forall j :: 0 <= j < |marks| && marks[j].Array? && (forall l :: j < l < |marks| ==> marks[l] == Deref) ==>
            i.count == marks[j].count)
      && ((forall j :: 0 <= j < |marks| ==> marks[j] == Deref) ==> i.count == 1)
  {
    RingRefinesMap([], calls);
    RunMarks(map[], calls, p, []);
    ClearedMeaning(RunRing([], calls).0, p);
  }

  // ---------------------------------------------------------------- the ring

  /** How many slots lie from tail up to head, going around. */
  ghost function Span(tail: nat, head: nat): nat
    requires head < ARITY && tail < ARITY
  {
    if tail <= head then head - tail else head - tail + ARITY
  }

  /** The slot k places after tail, going around. */
  ghost function Slot(tail: nat, k: nat): (i: nat)
    requires tail < ARITY && k < ARITY
    ensures i < ARITY && i == (tail + k) % ARITY
  {
    if tail + k < ARITY then tail + k else tail + k - ARITY
  }

  /** The tags from tail up to head. */
  ghost function WindowOf(t: seq<Tag>, tail: nat, head: nat): (w: seq<Tag>)
    requires |t| == ARITY + 1 && head < ARITY && tail < ARITY
    ensures |w| == Span(tail, head)
    ensures forall k :: 0 <= k < |w| ==> w[k] == t[Slot(tail, k)]
  {
    seq(Span(tail, head), k requires 0 <= k < Span(tail, head) => t[Slot(tail, k)])
  }

  lemma WindowSet(t: seq<Tag>, tail: nat, head: nat, k: nat, x: Tag)
    requires |t| == ARITY + 1 && head < ARITY && tail < ARITY && k < Span(tail, head)
    ensures WindowOf(t[Slot(tail, k) := x], tail, head) == WindowOf(t, tail, head)[k := x]
  {
    forall j | 0 <= j < Span(tail, head)
      ensures j != k ==> Slot(tail, j) != Slot(tail, k)
    {
    }
  }

  lemma WindowGrow(t: seq<Tag>, tail: nat, head: nat, next: nat, x: Tag)
    requires |t| == ARITY + 1 && head < ARITY && tail < ARITY && next == Slot(head, 1)
    ensures var w := WindowOf(t, tail, head);
      && (|w| + 1 < ARITY <==> next != tail)
      && WindowOf(t[head := x], tail, next) == if |w| + 1 < ARITY then w + [x] else []
  {
    var w, u := WindowOf(t, tail, head), WindowOf(t[head := x], tail, next);
    if |w| + 1 < ARITY {
      forall k | 0 <= k < |u|
        ensures u[k] == (w + [x])[k]
      {
        assert Slot(tail, k) == head <==> k == |w|;
      }
    }
  }

  lemma TailStep(t: seq<Tag>, tail: nat, head: nat, next: nat, w: seq<Tag>, k: nat)
    requires |t| == ARITY + 1 && head < ARITY && tail < ARITY && tail != head && next == Slot(tail, 1)
    requires k <= |w| && WindowOf(t, tail, head) == w[k..]
    ensures k < |w| && w[k] == t[tail] && WindowOf(t, next, head) == w[k + 1..]
  {
    WindowDrop(t, tail, head, next);
    assert w[k..][0] == w[k] && w[k..][1..] == w[k + 1..];
  }

  lemma WindowDrop(t: seq<Tag>, tail: nat, head: nat, next: nat)
    requires |t| == ARITY + 1 && head < ARITY && tail < ARITY && tail != head && next == Slot(tail, 1)
    ensures var w := WindowOf(t, tail, head);
      w != [] && w[0] == t[tail] && WindowOf(t, next, head) == w[1..]
  {
    var w, u := WindowOf(t, tail, head), WindowOf(t, next, head);
    forall k | 0 <= k < |u|
      ensures u[k] == w[k + 1]
    {
      assert Slot(next, k) == Slot(tail, k + 1);
    }
  }

  class Ring {
    var tags: array<Tag>
    var head: nat
    var tail: nat

    ghost predicate Valid()
      reads this, tags
    {
      && tags.Length == ARITY + 1 && head < ARITY && tail < ARITY
      && Distinct(Window())
    }

    ghost function Window(): seq<Tag>
      requires tags.Length == ARITY + 1 && head < ARITY && tail < ARITY
      reads this, tags
    {
      WindowOf(tags[..], tail, head)
    }

    constructor ()
      ensures Valid() && Window() == [] && fresh(tags)
    {
      tags := new Tag[ARITY + 1](_ => Tag(0, 0, false, false));
      head := 0;
      tail := 0;
    }

    /** The for loops of AddHead and ClearPtr: the slot of p, or head. */
    method Find(p: Ptr) returns (i: nat)
      requires tags.Length == ARITY + 1 && head < ARITY && tail < ARITY
      ensures i == Slot(tail, IndexOf(Window(), p))
      ensures i != head <==> IndexOf(Window(), p) < |Window()|
    {
      ghost var w := Window();
      i := tail;
      ghost var k := 0;
      while i != head
        invariant 0 <= k <= |w| && i == Slot(tail, k) && (i == head <==> k == |w|)
        invariant forall j :: 0 <= j < k ==> w[j].v != p
        decreases |w| - k
      {
        assert w[k] == tags[i];
        if tags[i].v == p {
          break;
        }
        i := (i + 1) % ARITY;
        k := k + 1;
      }
      IndexIs(w, p, k);
    }

    /** __RPC3_Tag_AddHead. ok is the condition that its assertion checks. */
    method AddHead(p: Ptr, m: Mark) returns (ok: bool)
      requires Valid()
      modifies this`head, tags
      ensures Valid() && tags == old(tags)
      ensures (Window(), ok) == Added(old(Window()), p, m)
    {
      ghost var t, w := tags[..], Window();
      AddedDistinct(w, p, m);
      var i := Find(p);
      if i != head {
        WindowSet(t, tail, head, IndexOf(w, p), Retagged(tags[i], m));
        tags[i] := Retagged(tags[i], m);
        ok := true;
      } else {
        var next := (head + 1) % ARITY;
        WindowGrow(t, tail, head, next, NewTag(p, m));
        tags[head] := NewTag(p, m);
        assert tags[..] == t[head := NewTag(p, m)];
        head := next;
        ok := head != tail;
      }
    }

    /** __RPC3ClearTail. */
    method ClearTail()
      requires Valid()
      modifies this`tail
      ensures Valid() && Window() == old(Window())[Holes(old(Window()))..]
    {
      ghost var t, w := tags[..], Window();
      ghost var k := 0;
      while tail != head
        invariant tail < ARITY && k <= |w| && WindowOf(t, tail, head) == w[k..]
        invariant forall j :: 0 <= j < k ==> w[j].v == 0
        decreases |w| - k
      {
        var next := (tail + 1) % ARITY;
        TailStep(t, tail, head, next, w, k);
        if tags[tail].v != 0 {
          break;
        }
        tail := next;
        k := k + 1;
      }
      HolesAre(w, k);
      DropDistinct(w, k);
    }

    /** __RPC3ClearPtr. For the null pointer it finds the first hole, and leaves it one. */
    method ClearPtr(p: Ptr) returns (tag: Info, found: bool)
      requires Valid()
      modifies this`tail, tags
      ensures Valid() && tags == old(tags)
      ensures (Window(), tag, found) == Cleared(old(Window()), p)
    {
      ghost var t, w := tags[..], Window();
      var i := Find(p);
      if i == head {
        return Info(1, false, false), false;
      }
      ghost var k := IndexOf(w, p);
      tag := Info(tags[i].count, tags[i].deref, tags[i].isArray);
      WindowSet(t, tail, head, k, tags[i].(v := 0));
      HoleDistinct(w, k);
      tags[i] := tags[i].(v := 0);
      ClearTail();
      found := true;
    }
  }

  lemma HoleDistinct(w: seq<Tag>, k: nat)
    requires Distinct(w) && k < |w|
    ensures Distinct(w[k := w[k].(v := 0)])
  {
  }

  lemma IndexIs(w: seq<Tag>, p: Ptr, k: nat)
    requires k <= |w| && (forall j :: 0 <= j < k ==> w[j].v != p) && (k < |w| ==> w[k].v == p)
    ensures IndexOf(w, p) == k
  {
  }

  lemma HolesAre(w: seq<Tag>, k: nat)
    requires k <= |w| && (forall j :: 0 <= j < k ==> w[j].v == 0) && (k < |w| ==> w[k].v != 0)
    ensures Holes(w) == k
  {
  }
}
