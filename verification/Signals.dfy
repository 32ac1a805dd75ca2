/** Slots: functions that are registered under an identifier and called, in order, when it is signalled. */
module Signals {
  import opened Lists
  import opened Options
  import opened OrderedList

  const TWO32 := 0x1_0000_0000

  /** A registered function, which may be empty, and the object it belongs to if it has one. */
  datatype Slot = Slot(target: Option<nat>, count: nat, priority: int, fn: Option<nat>)

  /** LocalSlotObjectComp: higher priorities first, then earlier registrations. */
  function Compare(key: Slot, data: Slot): int {
    if key.priority > data.priority then -1
    else if key.priority == data.priority then
      if key.count < data.count then -1 else if key.count == data.count then 0 else 1
    else 1
  }

  ghost predicate Ordered(slots: seq<Slot>) {
    forall i, j :: 0 <= i < j < |slots| ==> Compare(slots[i], slots[j]) < 0
  }

  lemma OrderedConsistent(key: Slot, slots: seq<Slot>)
    requires Ordered(slots)
    ensures Consistent(Compare, key, slots)
  {
  }

  // ---------------------------------------------------------------- registration

  datatype Table = Table(slots: map<string, seq<Slot>>, next: nat)

  function At(t: Table, id: string): seq<Slot> {
    if id in t.slots then t.slots[id] else []
  }

  function NewSlot(t: Table, target: Option<nat>, priority: int, fn: Option<nat>): Slot {
    Slot(target, t.next, priority, fn)
  }

  function Register(t: Table, id: string, target: Option<nat>, priority: int, fn: Option<nat>): Table {
    var s := NewSlot(t, target, priority, fn);
    Table(t.slots[id := Inserted(Compare, s, s, At(t, id))], (t.next + 1) % TWO32)
  }

  lemma PlaceSeparates(s: Slot, slots: seq<Slot>)
    requires Ordered(slots) && !Has(Compare, s, slots)
    ensures forall i :: 0 <= i < Place(Compare, s, slots) ==> Compare(slots[i], s) < 0
    ensures forall i :: Place(Compare, s, slots) <= i < |slots| ==> Compare(s, slots[i]) < 0
  {
    var p := Place(Compare, s, slots);
    forall i | p < i < |slots|
      ensures Compare(s, slots[i]) < 0
    {
      assert Compare(slots[p], slots[i]) < 0;
    }
  }

  lemma OrderedInsertAt(s: Slot, slots: seq<Slot>, p: nat, r: seq<Slot>)
    requires Ordered(slots) && p <= |slots| && r == InsertedAt(slots, p, s)
    requires forall i :: 0 <= i < p ==> Compare(slots[i], s) < 0
    requires forall i :: p <= i < |slots| ==> Compare(s, slots[i]) < 0
    ensures Ordered(r)
  {
    forall i, j | 0 <= i < j < |r|
      ensures Compare(r[i], r[j]) < 0
    {
      if i != p && j != p {
        assert r[i] == slots[if i < p then i else i - 1] && r[j] == slots[if j < p then j else j - 1];
      }
    }
  }

  lemma InsertOrdered(s: Slot, slots: seq<Slot>)
    requires Ordered(slots)
    ensures var r := Inserted(Compare, s, s, slots);
      && Ordered(r)
      && (Has(Compare, s, slots) ==> r == slots)
      && (!Has(Compare, s, slots) ==> forall x :: x in r <==> x in slots || x == s)
  {
    if !Has(Compare, s, slots) {
      var p, r := Place(Compare, s, slots), Inserted(Compare, s, s, slots);
      PlaceSeparates(s, slots);
      OrderedInsertAt(s, slots, p, r);
      InsertedAtMembers(slots, p, s);
    }
  }

  /** A new slot goes behind all slots of its priority exactly when its count is above theirs: what
      the registration count stops giving once it has wrapped around. */
  lemma LastOfItsPriority(s: Slot, slots: seq<Slot>)
    requires Ordered(slots)
    ensures (&& !Has(Compare, s, slots)
             && forall i :: 0 <= i < |slots| && slots[i].priority == s.priority ==> i < Place(Compare, s, slots))
       <==> forall i :: 0 <= i < |slots| && slots[i].priority == s.priority ==> slots[i].count < s.count
  {
    OrderedConsistent(s, slots);
    HasIffEqual(Compare, s, slots);
    if (forall i :: 0 <= i < |slots| && slots[i].priority == s.priority ==> slots[i].count < s.count) {
      PlaceSeparates(s, slots);
    }
  }

  // ---------------------------------------------------------------- dispatch

  /** What the callbacks do, by the calls made so far: which objects are there, and whether the last
      call interrupted the signal. */
  datatype World = World(alive: seq<Slot> -> set<nat>, interrupts: seq<Slot> -> bool)

  datatype Ending = Finished | Interrupted | EmptyFunction

  /** The slots called, the slots kept, how many were looked at, and how it ended. */
  datatype Outcome = Outcome(called: seq<Slot>, kept: seq<Slot>, visited: nat, ending: Ending)

  predicate Dead(s: Slot, alive: set<nat>) {
    s.target.Some? && s.target.value !in alive
  }

  /** Dispatch of the remaining slots after the given calls. */
  function Dispatch(slots: seq<Slot>, w: World, before: seq<Slot>): Outcome {
    if slots == [] then Outcome([], [], 0, Finished)
    else
      var s := slots[0];
      if Dead(s, w.alive(before)) then
        var o := Dispatch(slots[1..], w, before);
        o.(visited := o.visited + 1)
      else if s.fn == None then Outcome([], slots, 0, EmptyFunction)
      else if w.interrupts(before + [s]) then Outcome([s], slots, 1, Interrupted)
      else
        var o := Dispatch(slots[1..], w, before + [s]);
        Outcome([s] + o.called, [s] + o.kept, o.visited + 1, o.ending)
  }

  function Signal(t: Table, id: string, w: World): Table {
    if id in t.slots then t.(slots := t.slots[id := Dispatch(t.slots[id], w, []).kept]) else t
  }

  lemma {:induction false} OutcomeOrdered(slots: seq<Slot>, w: World, before: seq<Slot>)
    requires Ordered(slots)
    ensures var o := Dispatch(slots, w, before);
      && Ordered(o.kept) && Ordered(o.called)
      && (forall s :: s in o.kept ==> s in slots)
      && (forall s :: s in o.called ==> s in o.kept)
      && (forall s :: s in slots && s !in o.kept ==> s.target.Some?)
    decreases |slots|
  {
    if slots != [] {
      var s := slots[0];
      var rest := if Dead(s, w.alive(before)) then before else before + [s];
      var o, q := Dispatch(slots, w, before), Dispatch(slots[1..], w, rest);
      assert slots == [s] + slots[1..];
      OutcomeOrdered(slots[1..], w, rest);
      forall x | x in slots[1..]
        ensures Compare(s, x) < 0
      {
        var i :| 0 <= i < |slots[1..]| && slots[1..][i] == x;
        assert x == slots[i + 1];
      }
      if !Dead(s, w.alive(before)) && s.fn != None && !w.interrupts(before + [s]) {
        OrderedFront(s, q.kept);
        OrderedFront(s, q.called);
      }
    }
  }

  lemma OrderedFront(s: Slot, slots: seq<Slot>)
    requires Ordered(slots) && forall x :: x in slots ==> Compare(s, x) < 0
    ensures Ordered([s] + slots)
  {
  }

  /** The slots that are alive when they are looked at: after the calls before, and those to the live
      slots in front of them. */
  function AliveAlong(slots: seq<Slot>, w: World, before: seq<Slot>): seq<Slot> {
    if slots == [] then []
    else if Dead(slots[0], w.alive(before)) then AliveAlong(slots[1..], w, before)
    else [slots[0]] + AliveAlong(slots[1..], w, before + [slots[0]])
  }

  /** o calls the live slots among those it looked at, up to the first call that interrupts or the first
      live slot that has no function, and removes the dead ones among them. */
  ghost predicate CallsTheLive(slots: seq<Slot>, w: World, before: seq<Slot>, o: Outcome) {
    && o.visited <= |slots|
    && o.called == AliveAlong(slots[..o.visited], w, before)
    && o.kept == o.called + slots[o.visited..]
    && (o.ending == Finished ==> o.visited == |slots|)
    && (o.ending == Interrupted <==> o.called != [] && w.interrupts(before + o.called))
    && (o.ending == EmptyFunction ==>
          && o.visited < |slots| && slots[o.visited].fn == None
          && !Dead(slots[o.visited], w.alive(before + o.called)))
    && (forall s :: s in o.called ==> s.fn != None)
    && (forall n :: 0 < n < |o.called| ==> !w.interrupts(before + o.called[..n]))
    && (forall n :: 0 <= n < |o.called| ==> !Dead(o.called[n], w.alive(before + o.called[..n])))
  }

  lemma AddDead(slots: seq<Slot>, w: World, before: seq<Slot>, q: Outcome)
    requires slots != [] && Dead(slots[0], w.alive(before)) && CallsTheLive(slots[1..], w, before, q)
    ensures CallsTheLive(slots, w, before, q.(visited := q.visited + 1))
  {
    assert slots[..q.visited + 1][1..] == slots[1..][..q.visited];
  }

  /** before followed by the first n calls, when s is the first of them. */
  lemma CallsShift(before: seq<Slot>, s: Slot, called: seq<Slot>, n: nat)
    requires n <= |called|
    ensures before + ([s] + called)[..n + 1] == before + [s] + called[..n]
  {
    assert ([s] + called)[..n + 1] == [s] + called[..n];
  }

  lemma AddCalled(slots: seq<Slot>, w: World, before: seq<Slot>, s: Slot, q: Outcome)
    requires slots != [] && s == slots[0] && s.fn != None
    requires !Dead(s, w.alive(before)) && !w.interrupts(before + [s])
    requires CallsTheLive(slots[1..], w, before + [s], q)
    ensures CallsTheLive(slots, w, before, Outcome([s] + q.called, [s] + q.kept, q.visited + 1, q.ending))
  {
    var o := Outcome([s] + q.called, [s] + q.kept, q.visited + 1, q.ending);
    assert slots[..o.visited][1..] == slots[1..][..q.visited];
    assert o.called == AliveAlong(slots[..o.visited], w, before);
    assert o.kept == o.called + slots[o.visited..];
    assert before + o.called == before + [s] + q.called;
    if q.called == [] {
      assert o.called == [s];
    }
    forall n | 0 < n < |o.called|
      ensures !w.interrupts(before + o.called[..n])
    {
      CallsShift(before, s, q.called, n - 1);
      if n == 1 {
        assert before + o.called[..n] == before + [s];
      }
    }
    forall n | 0 <= n < |o.called|
      ensures !Dead(o.called[n], w.alive(before + o.called[..n]))
    {
      if n == 0 {
        assert before + o.called[..n] == before;
      } else {
        CallsShift(before, s, q.called, n - 1);
      }
    }
  }

  lemma AddLast(slots: seq<Slot>, w: World, before: seq<Slot>, s: Slot)
    requires slots != [] && s == slots[0] && s.fn != None
    requires !Dead(s, w.alive(before)) && w.interrupts(before + [s])
    ensures CallsTheLive(slots, w, before, Outcome([s], slots, 1, Interrupted))
  {
    assert slots[..1] == [s] && [s][1..] == [];
    assert slots == [s] + slots[1..];
    assert before + [s][..0] == before;
  }

  /** Whatever the callbacks do to the objects: exactly the slots that are alive when their turn comes are
      called, in order, up to the first interrupt, and exactly the dead ones looked at are removed. */
  lemma {:induction false} DispatchCallsTheLive(slots: seq<Slot>, w: World, before: seq<Slot>)
    ensures CallsTheLive(slots, w, before, Dispatch(slots, w, before))
    decreases |slots|
  {
    if slots == [] {
      assert slots[..0] == [];
    } else {
      var s := slots[0];
      if Dead(s, w.alive(before)) {
        DispatchCallsTheLive(slots[1..], w, before);
        AddDead(slots, w, before, Dispatch(slots[1..], w, before));
      } else if s.fn == None {
        assert before + [] == before && slots[..0] == [];
      } else if w.interrupts(before + [s]) {
        AddLast(slots, w, before, s);
      } else {
        DispatchCallsTheLive(slots[1..], w, before + [s]);
        AddCalled(slots, w, before, s, Dispatch(slots[1..], w, before + [s]));
      }
    }
  }

  /** A slot that is called either belongs to no object, or its object is there when it is called. */
  lemma CalledObjectsThere(slots: seq<Slot>, w: World, before: seq<Slot>, n: nat)
    requires n < |Dispatch(slots, w, before).called|
    ensures var s := Dispatch(slots, w, before).called[n];
      s.target == None || s.target.value in w.alive(before + Dispatch(slots, w, before).called[..n])
  {
    DispatchCallsTheLive(slots, w, before);
  }

  /** A slot that was looked at and is not kept belongs to an object that was gone after some of the calls. */
  lemma {:induction false} RemovedObjectsGone(slots: seq<Slot>, w: World, before: seq<Slot>, i: nat)
    requires i < Dispatch(slots, w, before).visited <= |slots| && slots[i] !in Dispatch(slots, w, before).kept
    ensures var o := Dispatch(slots, w, before);
      && slots[i].target.Some?
      && exists n :: 0 <= n <= |o.called| && slots[i].target.value !in w.alive(before + o.called[..n])
    decreases |slots|
  {
    var s, o := slots[0], Dispatch(slots, w, before);
    if Dead(s, w.alive(before)) {
      if i == 0 {
        assert before + o.called[..0] == before;
      } else {
        assert slots[1..][i - 1] == slots[i];
        RemovedObjectsGone(slots[1..], w, before, i - 1);
      }
    } else if s.fn != None && !w.interrupts(before + [s]) {
      var q := Dispatch(slots[1..], w, before + [s]);
      assert i > 0 && slots[1..][i - 1] == slots[i];
      RemovedObjectsGone(slots[1..], w, before + [s], i - 1);
      var n :| 0 <= n <= |q.called| && slots[i].target.value !in w.alive(before + [s] + q.called[..n]);
      CallsShift(before, s, q.called, n);
      assert o.called[..n + 1] == ([s] + q.called)[..n + 1];
    }
  }

  /** The slots whose object, if any, is there. */
  function Live(slots: seq<Slot>, alive: set<nat>): seq<Slot> {
    if slots == [] then []
    else if Dead(slots[0], alive) then Live(slots[1..], alive)
    else [slots[0]] + Live(slots[1..], alive)
  }

  lemma {:induction false} AliveInAFixedWorld(slots: seq<Slot>, w: World, before: seq<Slot>, alive: set<nat>)
    requires forall h :: w.alive(h) == alive
    ensures AliveAlong(slots, w, before) == Live(slots, alive)
    decreases |slots|
  {
    if slots != [] {
      AliveInAFixedWorld(slots[1..], w, before, alive);
      AliveInAFixedWorld(slots[1..], w, before + [slots[0]], alive);
    }
  }

  /** Where the objects stay as they are and no function is empty, the calls are the live slots up to the
      first interrupt. */
  lemma DispatchInAFixedWorld(slots: seq<Slot>, w: World, alive: set<nat>)
    requires forall h :: w.alive(h) == alive
    requires forall s :: s in slots ==> s.fn != None
    ensures var o := Dispatch(slots, w, []);
      && o.visited <= |slots|
      && o.called == Live(slots[..o.visited], alive)
      && o.kept == Live(slots[..o.visited], alive) + slots[o.visited..]
      && (o.visited == |slots| || (o.called != [] && w.interrupts(o.called)))
  {
    DispatchCallsTheLive(slots, w, []);
    var o := Dispatch(slots, w, []);
    AliveInAFixedWorld(slots[..o.visited], w, [], alive);
    assert [] + o.called == o.called;
  }

  // ---------------------------------------------------------------- runs

  datatype Step =
    | RegisterStep(id: string, target: Option<nat>, priority: int, fn: Option<nat>)
    | SignalStep(id: string, w: World)

  function Next(t: Table, step: Step): Table {
    match step
    case RegisterStep(id, target, priority, fn) => Register(t, id, target, priority, fn)
    case SignalStep(id, w) => Signal(t, id, w)
  }

  function RunOf(steps: seq<Step>): Table {
    if steps == [] then Table(map[], 0) else Next(RunOf(steps[..|steps| - 1]), steps[|steps| - 1])
  }

  /** The registrations of a run, in order. */
  function Log(steps: seq<Step>): seq<(string, Slot)> {
    if steps == [] then []
    else
      var before, last := steps[..|steps| - 1], steps[|steps| - 1];
      match last
      case RegisterStep(id, target, priority, fn) =>
        Log(before) + [(id, NewSlot(RunOf(before), target, priority, fn))]
      case SignalStep(_, _) => Log(before)
  }

  /** The counts of the slots that the signals of a run have removed. */
  ghost function Gone(steps: seq<Step>): set<nat> {
    if steps == [] then {}
    else
      var before, last := steps[..|steps| - 1], steps[|steps| - 1];
      match last
      case RegisterStep(_, _, _, _) => Gone(before)
      case SignalStep(id, w) => Gone(before) + Removed(At(RunOf(before), id), At(RunOf(steps), id))
  }

  ghost function Removed(slots: seq<Slot>, kept: seq<Slot>): set<nat> {
    set s | s in slots && s !in kept :: s.count
  }

  /** Every slot list is in order and holds the registrations of its identifier that were not removed;
      only slots that belong to an object were. */
  ghost predicate Accounted(t: Table, log: seq<(string, Slot)>, gone: set<nat>) {
    && t.next == |log| % TWO32
    && (forall n :: 0 <= n < |log| ==> log[n].1.count == n)
    && (forall id :: id in t.slots ==> Ordered(t.slots[id]))
    && (forall id, s :: s in At(t, id) ==> Registered(log, id, s) && s.count !in gone)
    && (forall n :: 0 <= n < |log| && n !in gone ==> log[n].1 in At(t, log[n].0))
    && (forall n :: n in gone ==> n < |log| && log[n].1.target.Some?)
  }

  ghost predicate Registered(log: seq<(string, Slot)>, id: string, s: Slot) {
    s.count < |log| && log[s.count] == (id, s)
  }

  /** Until the count goes around, no slot has the count of a new one. */
  lemma NewSlotIsNew(t: Table, log: seq<(string, Slot)>, gone: set<nat>, id: string, s: Slot)
    requires Accounted(t, log, gone) && s.count == |log|
    ensures !Has(Compare, s, At(t, id))
  {
    var slots := At(t, id);
    OrderedConsistent(s, slots);
    HasIffEqual(Compare, s, slots);
    forall i | 0 <= i < |slots|
      ensures Compare(s, slots[i]) != 0
    {
      assert slots[i] in slots;
      assert Registered(log, id, slots[i]);
    }
  }

  lemma RegisterAccounted(t: Table, log: seq<(string, Slot)>, gone: set<nat>, id: string, target: Option<nat>,
                          priority: int,
                          fn: Option<nat>)
    requires Accounted(t, log, gone) && |log| < TWO32
    ensures Accounted(Register(t, id, target, priority, fn), log + [(id, NewSlot(t, target, priority, fn))], gone)
  {
    var s, slots := NewSlot(t, target, priority, fn), At(t, id);
    var u, log' := Register(t, id, target, priority, fn), log + [(id, s)];
    NewSlotIsNew(t, log, gone, id, s);
    InsertOrdered(s, slots);
    assert forall y :: y in At(u, id) <==> y in slots || y == s;
    forall x: string, y | y in At(u, x)
      ensures Registered(log', x, y) && y.count !in gone
    {
      if y in At(t, x) {
        assert Registered(log, x, y);
      }
    }
    forall n | 0 <= n < |log'| && n !in gone
      ensures log'[n].1 in At(u, log'[n].0)
    {
      if n < |log| {
        assert log[n].1 in At(t, log[n].0);
      }
    }
    assert forall x :: x in u.slots ==> Ordered(u.slots[x]);
  }

  lemma SignalAccounted(t: Table, log: seq<(string, Slot)>, gone: set<nat>, id: string, w: World)
    requires Accounted(t, log, gone)
    ensures Accounted(Signal(t, id, w), log, gone + Removed(At(t, id), At(Signal(t, id, w), id)))
  {
    var slots, u := At(t, id), Signal(t, id, w);
    var kept := At(u, id);
    var gone' := gone + Removed(slots, kept);
    if id in t.slots {
      OutcomeOrdered(slots, w, []);
    }
    forall x: string, s | s in At(u, x)
      ensures Registered(log, x, s) && s.count !in gone'
    {
      assert s in At(t, x);
      if s.count in gone' {
        var r :| r in slots && r !in kept && r.count == s.count;
        assert Registered(log, id, r);
      }
    }
    forall n | n in gone'
      ensures n < |log| && log[n].1.target.Some?
    {
      if n !in gone {
        var r :| r in slots && r !in kept && r.count == n;
        assert Registered(log, id, r);
      }
    }
    forall n | 0 <= n < |log| && n !in gone'
      ensures log[n].1 in At(u, log[n].0)
    {
      assert log[n].1 in At(t, log[n].0);
    }
  }

  /** Over every run of registrations and signals, until the registration count has gone around, each
      slot list is the registrations of its identifier without the removed ones, by priority and then
      in the order they were made. */
  lemma {:induction false} EveryRunAccounted(steps: seq<Step>)
    requires |Log(steps)| <= TWO32
    ensures Accounted(RunOf(steps), Log(steps), Gone(steps))
    decreases |steps|
  {
    if steps != [] {
      var before, last := steps[..|steps| - 1], steps[|steps| - 1];
      EveryRunAccounted(before);
      match last
      case RegisterStep(id, target, priority, fn) =>
        RegisterAccounted(RunOf(before), Log(before), Gone(before), id, target, priority, fn);
      case SignalStep(id, w) => SignalAccounted(RunOf(before), Log(before), Gone(before), id, w);
    }
  }

  /** A table that has had all counts, and still has the first slot of all. */
  lemma FirstMetAgain(t: Table, log: seq<(string, Slot)>, gone: set<nat>, id: string, s: Slot, slots: seq<Slot>)
    requires Accounted(t, log, gone) && |log| == TWO32 && 0 !in gone && slots == At(t, id)
    requires log[0].0 == id && log[0].1.priority == s.priority && s.count == t.next
    ensures Consistent(Compare, s, slots) && Has(Compare, s, slots)
  {
    var first := log[0].1;
    assert first in slots;
    var i :| 0 <= i < |slots| && slots[i] == first;
    OrderedConsistent(s, slots);
    assert Compare(s, slots[i]) == 0;
    HasIffEqual(Compare, s, slots);
  }

  /** Once the count has gone around, a registration can be lost: the first slot of all is met again. */
  lemma WrappedRegistrationLost(steps: seq<Step>, id: string, target: Option<nat>, priority: int, fn: Option<nat>)
    requires |Log(steps)| == TWO32 && 0 !in Gone(steps)
    requires Log(steps)[0].0 == id && Log(steps)[0].1.priority == priority
    ensures At(Register(RunOf(steps), id, target, priority, fn), id) == At(RunOf(steps), id)
  {
    EveryRunAccounted(steps);
    MetAgain(RunOf(steps), Log(steps), Gone(steps), id, target, priority, fn);
  }

  lemma MetAgain(t: Table, log: seq<(string, Slot)>, gone: set<nat>, id: string, target: Option<nat>, priority: int,
                 fn: Option<nat>)
    requires Accounted(t, log, gone) && |log| == TWO32 && 0 !in gone
    requires log[0].0 == id && log[0].1.priority == priority
    ensures At(Register(t, id, target, priority, fn), id) == At(t, id)
  {
    FirstMetAgain(t, log, gone, id, NewSlot(t, target, priority, fn), At(t, id));
  }

  /** n registrations of the same function leave n slots behind. */
  lemma {:induction false} SameRegistrations(step: Step, n: nat)
    requires step.RegisterStep?
    ensures var steps := seq(n, _ => step);
      && |Log(steps)| == n && Gone(steps) == {}
      && (n > 0 ==> Log(steps)[0].0 == step.id && Log(steps)[0].1.priority == step.priority)
  {
    if n > 0 {
      SameRegistrations(step, n - 1);
      assert seq(n, _ => step)[..n - 1] == seq(n - 1, _ => step);
    }
  }

  /** A run in which that happens: one function registered once more than the count can tell apart. */
  lemma LostAfterAllCounts(id: string, target: Option<nat>, priority: int, fn: Option<nat>)
    ensures exists steps ::
      && |Log(steps)| == TWO32
      && At(Register(RunOf(steps), id, target, priority, fn), id) == At(RunOf(steps), id)
  {
    var step := RegisterStep(id, target, priority, fn);
    var steps := seq(TWO32, _ => step);
    SameRegistrations(step, TWO32);
    WrappedRegistrationLost(steps, id, target, priority, fn);
  }

  /** Or come out of order: behind no slot of its priority, although it is the youngest. */
  lemma WrappedRegistrationFirst(steps: seq<Step>, id: string, target: Option<nat>, priority: int, fn: Option<nat>)
    requires |Log(steps)| == TWO32
    requires Log(steps)[0].0 != id || Log(steps)[0].1.priority != priority || 0 in Gone(steps)
    ensures
      var s, slots := NewSlot(RunOf(steps), target, priority, fn), At(RunOf(steps), id);
      && !Has(Compare, s, slots)
      && forall i :: 0 <= i < |slots| && slots[i].priority == priority ==> Place(Compare, s, slots) <= i
  {
    EveryRunAccounted(steps);
    NoneMet(RunOf(steps), Log(steps), Gone(steps), id, NewSlot(RunOf(steps), target, priority, fn),
            At(RunOf(steps), id));
  }

  lemma NoneMet(t: Table, log: seq<(string, Slot)>, gone: set<nat>, id: string, s: Slot, slots: seq<Slot>)
    requires Accounted(t, log, gone) && |log| == TWO32 && slots == At(t, id) && s.count == t.next
    requires log[0].0 != id || log[0].1.priority != s.priority || 0 in gone
    ensures !Has(Compare, s, slots)
    ensures forall i :: 0 <= i < |slots| && slots[i].priority == s.priority ==> Place(Compare, s, slots) <= i
  {
    forall i | 0 <= i < |slots|
      ensures Compare(s, slots[i]) != 0
    {
      assert slots[i] in slots;
      assert Registered(log, id, slots[i]);
    }
    OrderedConsistent(s, slots);
    HasIffEqual(Compare, s, slots);
    PlaceSeparates(s, slots);
  }

  // ---------------------------------------------------------------- the plugin

  /** A pass over the remaining slots, put behind the calls already made. */
  ghost function Resumed(called: seq<Slot>, o: Outcome): (seq<Slot>, seq<Slot>, Ending) {
    (called + o.called, called + o.kept, o.ending)
  }

  lemma ResumedCall(called: seq<Slot>, s: Slot, o: Outcome, visited: nat)
    ensures Resumed(called, Outcome([s] + o.called, [s] + o.kept, visited, o.ending)) == Resumed(called + [s], o)
  {
    assert called + ([s] + o.called) == called + [s] + o.called;
    assert called + ([s] + o.kept) == called + [s] + o.kept;
  }

  lemma InFront(called: seq<Slot>, s: Slot, rest: seq<Slot>, slots: seq<Slot>)
    requires slots == called + ([s] + rest)
    ensures |called| < |slots| && slots[|called|] == s
    ensures RemovedAt(slots, |called|) == called + rest && slots == called + [s] + rest
  {
  }

  /** The loop of InvokeSignal. */
  method CallSlots(slots: seq<Slot>, w: World) returns (called: seq<Slot>, kept: seq<Slot>, ending: Ending)
    ensures (called, kept, ending) == Resumed([], Dispatch(slots, w, []))
  {
    called, kept := [], slots;
    ghost var rest, whole := slots, Resumed([], Dispatch(slots, w, []));
    var i := 0;
    while i < |kept|
      invariant i == |called| && kept == called + rest
      invariant whole == Resumed(called, Dispatch(rest, w, called))
      decreases |kept| - i
    {
      var s := kept[i];
      ghost var o := Dispatch(rest[1..], w, called + [s]);
      assert rest == [s] + rest[1..];
      InFront(called, s, rest[1..], kept);
      if s.target.Some? && s.target.value !in w.alive(called) {
        kept := RemovedAt(kept, i);
        rest := rest[1..];
        continue;
      }
      if s.fn == None {
        assert called + [] == called;
        return called, kept, EmptyFunction;
      }
      var interruptSignal := w.interrupts(called + [s]);
      if interruptSignal {
        return called + [s], kept, Interrupted;
      }
      ResumedCall(called, s, o, o.visited + 1);
      called := called + [s];
      rest := rest[1..];
      i := i + 1;
    }
    assert rest == [] && called + [] == called;
    return called, kept, Finished;
  }

  ghost predicate AllOrdered(t: Table) {
    forall id :: id in t.slots ==> Ordered(t.slots[id])
  }

  /** Any number of registrations and signals leaves every slot list in order, even once counts repeat. */
  lemma OrderKept(t: Table, step: Step)
    requires AllOrdered(t)
    ensures AllOrdered(Next(t, step))
  {
    match step
    case RegisterStep(id, target, priority, fn) => InsertOrdered(NewSlot(t, target, priority, fn), At(t, id));
    case SignalStep(id, w) => OutcomeOrdered(At(t, id), w, []);
  }

  lemma {:induction false} RunOrdered(steps: seq<Step>)
    ensures AllOrdered(RunOf(steps))
    decreases |steps|
  {
    if steps != [] {
      RunOrdered(steps[..|steps| - 1]);
      OrderKept(RunOf(steps[..|steps| - 1]), steps[|steps| - 1]);
    }
  }

  /** A higher priority comes first, and of equal ones the lower count. */
  ghost predicate InOrder(slots: seq<Slot>) {
    forall i, j :: 0 <= i < j < |slots| ==>
      slots[i].priority > slots[j].priority
      || (slots[i].priority == slots[j].priority && slots[i].count < slots[j].count)
  }

  lemma OrderedInOrder(slots: seq<Slot>)
    requires Ordered(slots)
    ensures InOrder(slots)
  {
    forall i, j | 0 <= i < j < |slots|
      ensures slots[i].priority > slots[j].priority
           || (slots[i].priority == slots[j].priority && slots[i].count < slots[j].count)
    {
      assert Compare(slots[i], slots[j]) < 0;
    }
  }

  /** Over any run the slots of an identifier, and those that a signal calls and keeps, are in the order of
      their priorities and then of their counts. */
  lemma EveryRunInOrder(steps: seq<Step>, id: string, w: World)
    ensures
      var slots := At(RunOf(steps), id);
      var o := Dispatch(slots, w, []);
      InOrder(slots) && InOrder(o.called) && InOrder(o.kept)
  {
    RunOrdered(steps);
    var slots := At(RunOf(steps), id);
    OutcomeOrdered(slots, w, []);
    OrderedInOrder(slots);
    OrderedInOrder(Dispatch(slots, w, []).called);
    OrderedInOrder(Dispatch(slots, w, []).kept);
  }

  class Rpc3 {
    var localSlots: map<string, seq<Slot>>
    var nextSlotRegistrationCount: nat
    var interruptSignal: bool
    /** UNASSIGNED_SYSTEM_ADDRESS is None. */
    var incomingSystemAddress: Option<nat>

    ghost function State(): Table
      reads this
    {
      Table(localSlots, nextSlotRegistrationCount)
    }

    ghost predicate Valid()
      reads this
    {
      AllOrdered(State())
    }

    constructor ()
      ensures Valid() && State() == RunOf([])
    {
      localSlots, nextSlotRegistrationCount := map[], 0;
      interruptSignal, incomingSystemAddress := false, None;
    }

    method RegisterSlot(id: string, fn: Option<nat>, target: Option<nat>, priority: int)
      requires Valid()
      modifies `localSlots, `nextSlotRegistrationCount
      ensures Valid() && State() == Register(old(State()), id, target, priority, fn)
    {
      OrderKept(State(), RegisterStep(id, target, priority, fn));
      var lso := Slot(target, nextSlotRegistrationCount, priority, fn);
      nextSlotRegistrationCount := (nextSlotRegistrationCount + 1) % TWO32;
      var slotObjects := if id in localSlots then localSlots[id] else [];
      OrderedConsistent(lso, slotObjects);
      slotObjects := Insert(Compare, lso, lso, slotObjects);
      localSlots := localSlots[id := slotObjects];
    }

    /** Gives the slots it called, and whether it sent an error. Only a pass that does not meet an
        empty function puts the incoming address back. */
    method InvokeSignal(id: string, w: World, temporarilySetUSA: bool) returns (called: seq<Slot>, error: bool)
      requires Valid()
      modifies this
      ensures Valid() && State() == Signal(old(State()), id, w)
      ensures id !in old(localSlots) ==>
        called == [] && !error && interruptSignal == old(interruptSignal)
        && incomingSystemAddress == old(incomingSystemAddress)
      ensures id in old(localSlots) ==>
        var o := Dispatch(old(localSlots)[id], w, []);
        && called == o.called
        && error == (o.ending == EmptyFunction && !temporarilySetUSA)
        && interruptSignal == (o.ending == Interrupted)
        && incomingSystemAddress
           == (if o.ending == EmptyFunction && temporarilySetUSA then None else old(incomingSystemAddress))
    {
      OrderKept(State(), SignalStep(id, w));
      called, error := [], false;
      if id !in localSlots {
        return;
      }
      var lastIncomingAddress := incomingSystemAddress;
      if temporarilySetUSA {
        incomingSystemAddress := None;
      }
      var slots := localSlots[id];
      var kept, ending;
      called, kept, ending := CallSlots(slots, w);
      ghost var o := Dispatch(slots, w, []);
      assert called == o.called && kept == o.kept && ending == o.ending;
      localSlots := localSlots[id := kept];
      interruptSignal := ending == Interrupted;
      if ending == EmptyFunction {
        error := !temporarilySetUSA;
        return;
      }
      if temporarilySetUSA {
        incomingSystemAddress := lastIncomingAddress;
      }
    }
  }
}
